/** ConvertUTF8toUTF16 and ConvertUTF16toUTF8: loops with cursors into a source and a target, which can be resumed
    (server/include/ConvertUTF.c). */
module ConvertUtf {
  import opened Streams
  import opened Conversions
  import Utf8

  type Utf16 = x: int | 0 <= x < 0x1_0000

  predicate IsHigh(u: int) {
    0xD800 <= u <= 0xDBFF
  }

  predicate IsLow(u: int) {
    0xDC00 <= u <= 0xDFFF
  }

  // ---------------------------------------------------------------- from UTF-8

  /** trailingBytesForUTF8. */
  function Trailing(lead: byte): nat {
    if lead < 0xC0 then 0 else if lead < 0xE0 then 1 else if lead < 0xF0 then 2
    else if lead < 0xF8 then 3 else if lead < 0xFC then 4 else 5
  }

  /** The bounds isLegalUTF8 sets for a second byte. */
  predicate SecondFits(lead: byte, a: byte) {
    a <= 0xBF &&
    if lead == 0xE0 then a >= 0xA0
    else if lead == 0xED then a <= 0x9F
    else if lead == 0xF0 then a >= 0x90
    else if lead == 0xF4 then a <= 0x8F
    else a >= 0x80
  }

  predicate IsLegal(s: bytes, length: nat)
    requires 0 < length <= |s|
  {
    && length <= 4
    && (length >= 4 ==> Utf8.IsTail(s[3]))
    && (length >= 3 ==> Utf8.IsTail(s[2]))
    && (length >= 2 ==> SecondFits(s[0], s[1]))
    && !(0x80 <= s[0] < 0xC2) && s[0] <= 0xF4
  }

  /** offsetsFromUTF8, as far as legal sequences go: what the marks of the bytes amount to. */
  const OFFSETS: seq<int> := [0, 0x3080, 0xE2080, 0x3C82080]

  /** The bytes shifted together, less their marks. */
  function Value(s: bytes, extra: nat): (ch: nat)
    requires extra < |s| && Trailing(s[0]) == extra && IsLegal(s, extra + 1)
    ensures ch <= 0x10FFFF && !IsHigh(ch) && !IsLow(ch)
  {
    var lead: int := s[0];
    if extra == 0 then lead
    else if extra == 1 then lead * 0x40 + s[1] - OFFSETS[1]
    else if extra == 2 then (lead * 0x40 + s[1]) * 0x40 + s[2] - OFFSETS[2]
    else ((lead * 0x40 + s[1]) * 0x40 + s[2]) * 0x40 + s[3] - OFFSETS[3]
  }

  function Units(ch: nat): (us: seq<Utf16>)
    requires ch <= 0x10FFFF
  {
    if ch <= 0xFFFF then [ch] else [(ch - 0x10000) / 0x400 + 0xD800, (ch - 0x10000) % 0x400 + 0xDC00]
  }

  /** One turn of ConvertUTF8toUTF16. No legal sequence is a surrogate or too large, so both modes do the same. */
  function ToUnits(s: bytes, room: nat): Turn<Utf16> {
    if s == [] then Stop(ConversionOK) else
      var extra := Trailing(s[0]);
      if extra >= |s| then Stop(SourceExhausted)
      else if !IsLegal(s, extra + 1) then Stop(SourceIllegal)
      else
        var units := Units(Value(s, extra));
        if |units| > room then Stop(TargetExhausted) else Write(extra + 1, units)
  }

  // ---------------------------------------------------------------- from UTF-16

  function Pair(high: int, low: int): nat
    requires IsHigh(high) && IsLow(low)
  {
    (high - 0xD800) * 0x400 + (low - 0xDC00) + 0x10000
  }

  /** One turn of ConvertUTF16toUTF8. */
  function ToBytes(strict: bool, s: seq<Utf16>, room: nat): Turn<byte> {
    if s == [] then Stop(ConversionOK)
    else if IsHigh(s[0]) then
      if |s| == 1 then Stop(SourceExhausted)
      else if IsLow(s[1]) then Fitting(2, Pair(s[0], s[1]), room)
      else if strict then Stop(SourceIllegal)
      else Fitting(1, s[0], room)
    else if strict && IsLow(s[0]) then Stop(SourceIllegal)
    else Fitting(1, s[0], room)
  }

  function Fitting(n: nat, ch: nat, room: nat): Turn<byte>
    requires ch <= 0x10FFFF
  {
    if |Utf8.Encode(ch)| > room then Stop(TargetExhausted) else Write(n, Utf8.Encode(ch))
  }

  function BytesStep(strict: bool): (seq<Utf16>, nat) -> Turn<byte> {
    (s: seq<Utf16>, room: nat) => ToBytes(strict, s, room)
  }

  lemma UnitsLimited()
    ensures RoomOnlyLimits(ToUnits)
  {
    forall s, room | s != [] ensures Limits(ToUnits, s, room) {
      hide Value, Units, IsLegal;
    }
  }

  lemma BytesLimited(strict: bool)
    ensures RoomOnlyLimits(BytesStep(strict))
  {
    forall s, room | s != [] ensures Limits(BytesStep(strict), s, room) {
      hide Utf8.Encode;
    }
  }

  // ---------------------------------------------------------------- the loops

  /** The bytes of one character added up, as the switch falls through its cases. */
  method AddUp(source: bytes, at: nat, extra: nat) returns (ch: nat, source': nat)
    requires extra <= 3 && at + extra < |source| && Trailing(source[at]) == extra && IsLegal(source[at..], extra + 1)
    ensures source' == at + extra + 1 && ch == Value(source[at..], extra)
  {
    source', ch := at, 0;
    if extra >= 3 {
      ch := (ch + source[source']) * 0x40;
      source' := source' + 1;
    }
    if extra >= 2 {
      ch := (ch + source[source']) * 0x40;
      source' := source' + 1;
    }
    if extra >= 1 {
      ch := (ch + source[source']) * 0x40;
      source' := source' + 1;
    }
    ch := ch + source[source'];
    source' := source' + 1;
    ch := ch - OFFSETS[extra];
  }

  /** The reading half of the loop. */
  method ReadBytes(source: bytes, at: nat, end: nat) returns (result: ConversionResult, ch: nat, next: nat)
    requires at < end <= |source|
    ensures var s := source[at..end]; var extra := Trailing(s[0]);
            if extra >= |s| then result == SourceExhausted
            else if !IsLegal(s, extra + 1) then result == SourceIllegal
            else result == ConversionOK && next == at + extra + 1 && ch == Value(s, extra)
  {
    var extra := Trailing(source[at]);
    if at + extra >= end {
      return SourceExhausted, 0, at;
    }
    if !IsLegal(source[at..end], extra + 1) {
      return SourceIllegal, 0, at;
    }
    result := ConversionOK;
    ch, next := AddUp(source[..end], at, extra);
    assert source[..end][at..] == source[at..end];
  }

  /** The writing half. */
  method WriteUnits(target: array<Utf16>, at: nat, ch: nat) returns (next: nat)
    requires ch <= 0x10FFFF && at + |Units(ch)| <= target.Length
    modifies target
    ensures next == at + |Units(ch)| && target[..next] == old(target[..at]) + Units(ch)
    ensures target[next..] == old(target[next..])
  {
    if ch <= 0xFFFF {
      target[at] := ch;
      next := at + 1;
    } else {
      var c := ch - 0x10000;
      target[at] := c / 0x400 + 0xD800;
      target[at + 1] := c % 0x400 + 0xDC00;
      next := at + 2;
    }
  }

  /** One turn of the loop: a character is read and, if there is room, written. */
  method TurnUnits(source: bytes, at: nat, end: nat, target: array<Utf16>, to: nat, targetEnd: nat)
    returns (result: ConversionResult, next: nat, to': nat)
    requires at < end <= |source| && to <= targetEnd <= target.Length
    modifies target
    ensures target[targetEnd..] == old(target[targetEnd..]) && next <= end && to' <= targetEnd
    ensures match ToUnits(source[at..end], targetEnd - to)
            case Stop(r) => result == r && r != ConversionOK && next == at && to' == to && target[..] == old(target[..])
            case Write(n, units) =>
              && result == ConversionOK && next == at + n && to' == to + |units|
              && target[..to'] == old(target[..to]) + units
  {
    hide IsLegal, Units, Value;
    var ch;
    to' := to;
    result, ch, next := ReadBytes(source, at, end);
    if result == ConversionOK && (to >= targetEnd || (ch > 0xFFFF && to + 1 >= targetEnd)) {
      UnitsLength(ch);
      result := TargetExhausted;
    }
    if result != ConversionOK {
      next := at;
      return;
    }
    UnitsLength(ch);
    to' := WriteUnits(target, to, ch);
    assert target[targetEnd..] == target[to'..][targetEnd - to'..];
  }

  /** ConvertUTF8toUTF16 on source[from..end] and target[to..targetEnd]; its flags make no difference. */
  method ConvertUTF8toUTF16(source: bytes, from: nat, end: nat, target: array<Utf16>, to: nat, targetEnd: nat)
    returns (source': nat, target': nat, result: ConversionResult)
    requires from <= end <= |source| && to <= targetEnd <= target.Length
    modifies target
    ensures from <= source' <= end && to <= target' <= targetEnd
    ensures Outcome(source' - from, target[to..target'], result) == Convert(ToUnits, source[from..end], targetEnd - to)
    ensures target[..to] == old(target[..to]) && target[targetEnd..] == old(target[targetEnd..])
  {
    hide Convert, ToUnits, After;
    source', target', result := from, to, ConversionOK;
    ghost var front, behind := target[..to], target[targetEnd..];
    ghost var out: seq<Utf16>, rest := [], source[from..end];
    ghost var whole := Convert(ToUnits, rest, targetEnd - to);
    AfterNothing(whole);
    assert front + out == front;
    while source' < end
      invariant from <= source' <= end && to <= target' <= targetEnd && result == ConversionOK && rest == source[source'..end]
      invariant After(source' - from, out, Convert(ToUnits, rest, targetEnd - target')) == whole
      invariant target[..target'] == front + out && target[targetEnd..] == behind
    {
      OneUnitsTurn(rest, targetEnd - target');
      ghost var turn := ToUnits(rest, targetEnd - target');
      var next, to';
      result, next, to' := TurnUnits(source, source', end, target, target', targetEnd);
      if result != ConversionOK {
        Ends(source' - from, out, result);
        break;
      }
      rest := rest[next - source'..];
      AfterTwice(source' - from, out, next - source', turn.units, Convert(ToUnits, rest, targetEnd - to'));
      source', target', out := next, to', out + turn.units;
    }
    if result == ConversionOK {
      OneUnitsTurn([], targetEnd - target');
      Ends(source' - from, out, result);
    }
    Standing(target, front, out);
  }

  lemma UnitsLength(ch: nat)
    requires ch <= 0x10FFFF
    ensures |Units(ch)| == if ch <= 0xFFFF then 1 else 2
  {
  }

  lemma Ends<T>(n: nat, units: seq<T>, r: ConversionResult)
    ensures After(n, units, Outcome(0, [], r)) == Outcome(n, units, r)
  {
    assert units + [] == units;
  }

  lemma OneUnitsTurn(s: bytes, room: nat)
    ensures s == [] ==> Convert(ToUnits, s, room) == Outcome(0, [], ConversionOK)
    ensures s != [] ==>
              match ToUnits(s, room)
              case Stop(r) => Convert(ToUnits, s, room) == Outcome(0, [], r)
              case Write(n, units) =>
                && 0 < n <= |s| && |units| <= room
                && Convert(ToUnits, s, room) == After(n, units, Convert(ToUnits, s[n..], room - |units|))
  {
    UnitsLimited();
    OneTurn(ToUnits, s, room);
  }

  lemma OneBytesTurn(strict: bool, s: seq<Utf16>, room: nat)
    ensures s == [] ==> Convert(BytesStep(strict), s, room) == Outcome(0, [], ConversionOK)
    ensures s != [] ==>
              match ToBytes(strict, s, room)
              case Stop(r) => Convert(BytesStep(strict), s, room) == Outcome(0, [], r)
              case Write(n, units) =>
                && 0 < n <= |s| && |units| <= room
                && Convert(BytesStep(strict), s, room) == After(n, units, Convert(BytesStep(strict), s[n..], room - |units|))
  {
    hide Convert, ToBytes, RoomOnlyLimits;
    BytesLimited(strict);
    OneTurn(BytesStep(strict), s, room);
  }

  /** The bytes of one character, written from the last to the first as the switch falls through its cases. */
  method WriteBack(target: array<byte>, to: nat, ch: nat, bytesToWrite: nat)
    requires ch <= 0x10FFFF && to + bytesToWrite <= target.Length && bytesToWrite == |Utf8.Encode(ch)|
    modifies target
    ensures target[..to + bytesToWrite] == old(target[..to]) + Utf8.Encode(ch)
    ensures target[to + bytesToWrite..] == old(target[to + bytesToWrite..])
  {
    var c, at := ch, to + bytesToWrite;
    if bytesToWrite >= 4 {
      at := at - 1;
      target[at] := 0x80 + Utf8.Low6(c);
      c := Utf8.Shr6(c);
    }
    if bytesToWrite >= 3 {
      at := at - 1;
      target[at] := 0x80 + Utf8.Low6(c);
      c := Utf8.Shr6(c);
    }
    if bytesToWrite >= 2 {
      at := at - 1;
      target[at] := 0x80 + Utf8.Low6(c);
      c := Utf8.Shr6(c);
    }
    target[at - 1] := FirstByteMark(bytesToWrite) + c;
  }

  function FirstByteMark(n: nat): byte
    requires 1 <= n <= 4
  {
    if n == 1 then 0 else if n == 2 then 0xC0 else if n == 3 then 0xE0 else 0xF0
  }

  /** The reading half of the loop. */
  method ReadUnits(source: seq<Utf16>, at: nat, end: nat, strict: bool)
    returns (result: ConversionResult, ch: nat, next: nat)
    requires at < end <= |source|
    ensures result == ConversionOK ==> ch <= 0x10FFFF && at < next <= end
    ensures forall room: nat ::
              ToBytes(strict, source[at..end], room) == if result == ConversionOK then Fitting(next - at, ch, room) else Stop(result)
  {
    ch, next, result := source[at], at + 1, ConversionOK;
    if IsHigh(ch) {
      if next < end {
        var ch2 := source[next];
        if IsLow(ch2) {
          ch := Pair(ch, ch2);
          next := next + 1;
        } else if strict {
          next := next - 1;
          result := SourceIllegal;
        }
      } else {
        next := next - 1;
        result := SourceExhausted;
      }
    } else if strict && IsLow(ch) {
      next := next - 1;
      result := SourceIllegal;
    }
  }

  /** One turn of the loop: a character is read and, if there is room, written. */
  method TurnBytes(source: seq<Utf16>, at: nat, end: nat, target: array<byte>, to: nat, targetEnd: nat, strict: bool)
    returns (result: ConversionResult, next: nat, to': nat)
    requires at < end <= |source| && to <= targetEnd <= target.Length
    modifies target
    ensures target[targetEnd..] == old(target[targetEnd..]) && next <= end && to' <= targetEnd
    ensures match ToBytes(strict, source[at..end], targetEnd - to)
            case Stop(r) => result == r && r != ConversionOK && next == at && to' == to && target[..] == old(target[..])
            case Write(n, units) =>
              && result == ConversionOK && next == at + n && to' == to + |units|
              && target[..to'] == old(target[..to]) + units
  {
    hide ToBytes, Utf8.Encode;
    var ch;
    to' := to;
    result, ch, next := ReadUnits(source, at, end, strict);
    if result != ConversionOK {
      next := at;
      return;
    }
    var bytesToWrite := if ch < 0x80 then 1 else if ch < 0x800 then 2 else if ch < 0x10000 then 3 else 4;
    EncodedLength(ch);
    to' := to + bytesToWrite;
    if to' > targetEnd {
      next, to', result := at, to' - bytesToWrite, TargetExhausted;
      return;
    }
    WriteBack(target, to, ch, bytesToWrite);
    assert target[targetEnd..] == target[to + bytesToWrite..][targetEnd - to - bytesToWrite..];
  }

  /** ConvertUTF16toUTF8 on source[from..end] and target[to..targetEnd]. */
  method ConvertUTF16toUTF8(source: seq<Utf16>, from: nat, end: nat, target: array<byte>, to: nat, targetEnd: nat, strict: bool)
    returns (source': nat, target': nat, result: ConversionResult)
    requires from <= end <= |source| && to <= targetEnd <= target.Length
    modifies target
    ensures from <= source' <= end && to <= target' <= targetEnd
    ensures Outcome(source' - from, target[to..target'], result)
            == Convert(BytesStep(strict), source[from..end], targetEnd - to)
    ensures target[..to] == old(target[..to]) && target[targetEnd..] == old(target[targetEnd..])
  {
    hide Convert, BytesStep, ToBytes, After;
    source', target', result := from, to, ConversionOK;
    ghost var front, behind := target[..to], target[targetEnd..];
    ghost var out: bytes, rest := [], source[from..end];
    ghost var whole := Convert(BytesStep(strict), rest, targetEnd - to);
    AfterNothing(whole);
    assert front + out == front;
    while source' < end
      invariant from <= source' <= end && to <= target' <= targetEnd && result == ConversionOK && rest == source[source'..end]
      invariant After(source' - from, out, Convert(BytesStep(strict), rest, targetEnd - target')) == whole
      invariant target[..target'] == front + out && target[targetEnd..] == behind
    {
      OneBytesTurn(strict, rest, targetEnd - target');
      ghost var turn := ToBytes(strict, rest, targetEnd - target');
      var next, to';
      result, next, to' := TurnBytes(source, source', end, target, target', targetEnd, strict);
      if result != ConversionOK {
        Ends(source' - from, out, result);
        break;
      }
      rest := rest[next - source'..];
      AfterTwice(source' - from, out, next - source', turn.units, Convert(BytesStep(strict), rest, targetEnd - to'));
      source', target', out := next, to', out + turn.units;
    }
    if result == ConversionOK {
      OneBytesTurn(strict, [], targetEnd - target');
      Ends(source' - from, out, result);
    }
    Standing(target, front, out);
  }

  /** What stands behind `front`. */
  lemma Standing<T>(target: array<T>, front: seq<T>, out: seq<T>)
    requires |front| + |out| <= target.Length && target[..|front| + |out|] == front + out
    ensures target[|front|..|front| + |out|] == out && target[..|front|] == front
  {
    assert target[..|front| + |out|][|front|..] == out;
  }

  lemma EncodedLength(ch: nat)
    requires ch <= 0x10FFFF
    ensures |Utf8.Encode(ch)| == if ch < 0x80 then 1 else if ch < 0x800 then 2 else if ch < 0x10000 then 3 else 4
  {
  }
}
