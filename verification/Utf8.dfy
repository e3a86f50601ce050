/** The UTF-8 codec of rapidjson (encodings.h) against section 4 of RFC 3629. */
module Utf8 {
  import opened Streams

  // ---------------------------------------------------------------- the range-table codec

  /** The classes of the range table: continuation bytes carry 0x10, 0x20 or 0x40,
      lead bytes the number of the automaton branch to take. */
  function GetRange(c: byte): byte {
    if c < 0x80 then 0
    else if c < 0x90 then 0x10
    else if c < 0xA0 then 0x40
    else if c < 0xC0 then 0x20
    else if c < 0xC2 then 8
    else if c < 0xE0 then 2
    else if c == 0xE0 then 10
    else if c == 0xED then 4
    else if c < 0xF0 then 3
    else if c == 0xF0 then 11
    else if c < 0xF4 then 6
    else if c == 0xF4 then 5
    else 8
  }

  /** (GetRange(c) & mask) != 0, with the mask written as the set of its classes. */
  predicate InMask(c: byte, mask: set<byte>) {
    GetRange(c) in mask
  }

  /** n & 0x3F */
  function Low6(n: nat): (r: nat)
    ensures r < 0x40
    ensures 0x80 <= n < 0xC0 ==> r == n - 0x80
  {
    n % 0x40
  }

  /** n >> 6 */
  function Shr6(n: nat): (r: nat)
    ensures n == r * 0x40 + Low6(n)
  {
    n / 0x40
  }

  /** (0xFF >> type) & c: the payload bits of a lead byte. */
  function LeadBits(c: byte, range: byte): nat {
    if range == 2 then c % 0x40
    else if range == 3 then c % 0x20
    else if range == 4 then c % 0x10
    else if range == 5 then c % 8
    else if range == 6 then c % 4
    else 0
  }

  const ANY: set<byte> := {0x10, 0x20, 0x40}   // 0x70

  datatype Decoded = Decoded(ok: bool, codepoint: nat, rest: bytes)

  /** One COPY() and TRANS(mask) step. The result flag is only and-ed: bytes are taken even after a failure. */
  function Copy(d: Decoded, mask: set<byte>): Decoded {
    var c := Peek(d.rest);
    Decoded(d.ok && InMask(c, mask), d.codepoint * 0x40 + Low6(c), Next(d.rest))
  }

  /** The masks that the switch on the lead byte's range applies to the bytes that follow it. */
  function Masks(range: byte): seq<set<byte>> {
    if range == 2 then [ANY]
    else if range == 3 then [ANY, ANY]
    else if range == 4 then [{0x10, 0x40}, ANY]
    else if range == 5 then [{0x10}, ANY, ANY]
    else if range == 6 then [ANY, ANY, ANY]
    else if range == 10 then [{0x20}, ANY]
    else if range == 11 then [{0x20, 0x40}, ANY, ANY]
    else []
  }

  function CopyAll(d: Decoded, masks: seq<set<byte>>): Decoded
    decreases |masks|
  {
    if masks == [] then d else CopyAll(Copy(d, masks[0]), masks[1..])
  }

  function DecodeOne(s: bytes): Decoded {
    var c := Peek(s);
    if c < 0x80 then Decoded(true, c, Next(s)) else
      var range := GetRange(c);
      CopyAll(Decoded(range != 8 && range < 0x10, LeadBits(c, range), Next(s)), Masks(range))
  }

  datatype Validated = Validated(ok: bool, copied: bytes, rest: bytes)

  function Put(v: Validated, mask: set<byte>): Validated {
    var c := Peek(v.rest);
    Validated(v.ok && InMask(c, mask), v.copied + [c], Next(v.rest))
  }

  /** The same walk, putting every byte taken instead of decoding it. */
  function PutAll(v: Validated, masks: seq<set<byte>>): Validated
    decreases |masks|
  {
    if masks == [] then v else PutAll(Put(v, masks[0]), masks[1..])
  }

  function ValidateOne(s: bytes): Validated {
    var c := Peek(s);
    if c < 0x80 then Validated(true, [c], Next(s)) else
      var range := GetRange(c);
      PutAll(Validated(range != 8 && range < 0x10, [c], Next(s)), Masks(range))
  }

  function Encode(codepoint: nat): (u: bytes)
    requires codepoint <= 0x10FFFF
  {
    var n6 := Shr6(codepoint);
    var n12 := Shr6(n6);
    if codepoint <= 0x7F then [codepoint]
    else if codepoint <= 0x7FF then [0xC0 + n6, 0x80 + Low6(codepoint)]
    else if codepoint <= 0xFFFF then [0xE0 + n12, 0x80 + Low6(n6), 0x80 + Low6(codepoint)]
    else [0xF0 + Shr6(n12), 0x80 + Low6(n12), 0x80 + Low6(n6), 0x80 + Low6(codepoint)]
  }

  // ---------------------------------------------------------------- RFC 3629

  predicate IsTail(c: byte) { 0x80 <= c <= 0xBF }

  /** The UTF8-char production of section 4 of RFC 3629. */
  predicate IsChar(u: bytes) {
    || (|u| == 1 && u[0] <= 0x7F)
    || (|u| == 2 && 0xC2 <= u[0] <= 0xDF && IsTail(u[1]))
    || (|u| == 3 && IsTail(u[1]) && IsTail(u[2]) &&
        (if u[0] == 0xE0 then 0xA0 <= u[1] else if u[0] == 0xED then u[1] <= 0x9F else 0xE1 <= u[0] <= 0xEF))
    || (|u| == 4 && IsTail(u[1]) && IsTail(u[2]) && IsTail(u[3]) &&
        (if u[0] == 0xF0 then 0x90 <= u[1] else if u[0] == 0xF4 then u[1] <= 0x8F else 0xF1 <= u[0] <= 0xF3))
  }

  predicate IsScalar(codepoint: nat) {
    codepoint < 0xD800 || 0xE000 <= codepoint <= 0x10FFFF
  }

  function Payload(c: byte, mark: byte): (r: nat)
    requires mark <= c
  {
    c - mark
  }

  /** The character number of section 3 of RFC 3629. */
  function Scalar(u: bytes): (codepoint: nat)
    requires IsChar(u)
  {
    if |u| == 1 then u[0]
    else if |u| == 2 then Payload(u[0], 0xC0) * 0x40 + Payload(u[1], 0x80)
    else if |u| == 3 then (Payload(u[0], 0xE0) * 0x40 + Payload(u[1], 0x80)) * 0x40 + Payload(u[2], 0x80)
    else ((Payload(u[0], 0xF0) * 0x40 + Payload(u[1], 0x80)) * 0x40 + Payload(u[2], 0x80)) * 0x40 + Payload(u[3], 0x80)
  }

  /** How many bytes the character starting with `lead` has, if it is one. */
  function CharLength(lead: byte): (n: nat) {
    if lead < 0x80 then 1 else if lead < 0xE0 then 2 else if lead < 0xF0 then 3 else 4
  }

  /** UTF8-octets = *( UTF8-char ). */
  predicate WellFormed(s: bytes) {
    s == [] ||
    var n := CharLength(s[0]);
    n <= |s| && IsChar(s[..n]) && WellFormed(s[n..])
  }

  function DecodeAll(s: bytes): (codepoints: seq<nat>)
    requires WellFormed(s)
  {
    if s == [] then [] else
      var n := CharLength(s[0]);
      [Scalar(s[..n])] + DecodeAll(s[n..])
  }

  predicate AllScalars(codepoints: seq<nat>) {
    forall i | 0 <= i < |codepoints| :: IsScalar(codepoints[i])
  }

  function EncodeAll(codepoints: seq<nat>): bytes
    requires AllScalars(codepoints)
  {
    if codepoints == [] then [] else Encode(codepoints[0]) + EncodeAll(codepoints[1..])
  }

  // ---------------------------------------------------------------- one character

  predicate AllInMask(tail: bytes, masks: seq<set<byte>>) {
    |tail| == |masks| && forall i | 0 <= i < |tail| :: InMask(tail[i], masks[i])
  }

  function Fold(codepoint: nat, tail: bytes): nat
    decreases |tail|
  {
    if tail == [] then codepoint else Fold(codepoint * 0x40 + Low6(tail[0]), tail[1..])
  }

  lemma {:induction false} CopyAllOver(d: Decoded, masks: seq<set<byte>>, tail: bytes, post: bytes)
    requires d.rest == tail + post && |tail| == |masks|
    ensures CopyAll(d, masks) == Decoded(d.ok && AllInMask(tail, masks), Fold(d.codepoint, tail), post)
    decreases |masks|
  {
    if masks == [] {
      assert tail + post == post;
    } else {
      var d' := Copy(d, masks[0]);
      assert d'.rest == tail[1..] + post;
      CopyAllOver(d', masks[1..], tail[1..], post);
    }
  }

  lemma {:induction false} CopyAllShort(d: Decoded, masks: seq<set<byte>>)
    requires |d.rest| < |masks|
    requires forall i | 0 <= i < |masks| :: masks[i] <= ANY
    ensures !CopyAll(d, masks).ok
    decreases |masks|
  {
    var d' := Copy(d, masks[0]);
    if d.rest == [] {
      CopyAllFailed(d', masks[1..]);
    } else {
      CopyAllShort(d', masks[1..]);
    }
  }

  lemma {:induction false} CopyAllFailed(d: Decoded, masks: seq<set<byte>>)
    requires !d.ok
    ensures !CopyAll(d, masks).ok
    decreases |masks|
  {
    if masks != [] {
      CopyAllFailed(Copy(d, masks[0]), masks[1..]);
    }
  }

  /** The table branches say what section 4 of RFC 3629 says. */
  lemma TableIsRfc(u: bytes)
    requires u != [] && u[0] >= 0x80
    ensures IsChar(u) <==>
              && GetRange(u[0]) != 8 && GetRange(u[0]) < 0x10
              && AllInMask(u[1..], Masks(GetRange(u[0])))
  {
    var masks := Masks(GetRange(u[0]));
    assert forall i | 0 <= i < |u| - 1 :: u[1..][i] == u[i + 1];
    if |u| == 1 + |masks| {
      if |u| >= 3 {
        assert InMask(u[1..][1], ANY) <==> IsTail(u[2]);
      }
    }
  }

  lemma FoldIsScalar(u: bytes)
    requires IsChar(u) && u[0] >= 0x80
    ensures Fold(LeadBits(u[0], GetRange(u[0])), u[1..]) == Scalar(u)
  {
    var lead := LeadBits(u[0], GetRange(u[0]));
    assert lead == u[0] as int - (if |u| == 2 then 0xC0 else if |u| == 3 then 0xE0 else 0xF0);
    assert u[1..][1..] == u[2..];
    var f1 := lead * 0x40 + Low6(u[1]);
    assert Fold(lead, u[1..]) == Fold(f1, u[2..]);
    if |u| >= 3 {
      var f2 := f1 * 0x40 + Low6(u[2]);
      assert u[2..][1..] == u[3..];
      assert Fold(f1, u[2..]) == Fold(f2, u[3..]);
      if |u| == 4 {
        assert u[3..][1..] == [];
        assert Fold(f2, u[3..]) == f2 * 0x40 + Low6(u[3]);
      }
    }
  }

  lemma DecodeChar(u: bytes, post: bytes)
    requires IsChar(u)
    ensures DecodeOne(u + post) == Decoded(true, Scalar(u), post)
  {
    var s := u + post;
    assert s[1..] == u[1..] + post;
    if u[0] >= 0x80 {
      TableIsRfc(u);
      FoldIsScalar(u);
      var range := GetRange(u[0]);
      CopyAllOver(Decoded(true, LeadBits(u[0], range), s[1..]), Masks(range), u[1..], post);
    } else {
      assert u[1..] == [];
    }
  }

  lemma AcceptedIsChar(s: bytes)
    requires s != [] && DecodeOne(s).ok
    ensures var n := CharLength(s[0]); 1 <= n <= |s| && IsChar(s[..n])
  {
    hide InMask, LeadBits, IsTail, CopyAll;
    if s[0] >= 0x80 {
      var range := GetRange(s[0]);
      var masks := Masks(range);
      var d := Decoded(range != 8 && range < 0x10, LeadBits(s[0], range), s[1..]);
      var n := 1 + |masks|;
      if |s| < n {
        CopyAllShort(d, masks);
      } else {
        assert s[1..] == s[1..n] + s[n..];
        assert s[..n][1..] == s[1..n];
        CopyAllOver(d, masks, s[1..n], s[n..]);
        TableIsRfc(s[..n]);
        if !d.ok { assert false; }
      }
    }
  }

  /** Decode accepts exactly the well-formed characters of RFC 3629, and reads all of one and no more. */
  lemma DecodeIsExact(s: bytes)
    requires s != []
    ensures DecodeOne(s).ok <==> exists n :: 1 <= n <= |s| && IsChar(s[..n])
    ensures forall n :: 1 <= n <= |s| && IsChar(s[..n]) ==>
              DecodeOne(s) == Decoded(true, Scalar(s[..n]), s[n..])
  {
    forall n | 1 <= n <= |s| && IsChar(s[..n])
      ensures DecodeOne(s) == Decoded(true, Scalar(s[..n]), s[n..])
    {
      assert s == s[..n] + s[n..];
      DecodeChar(s[..n], s[n..]);
    }
    if DecodeOne(s).ok {
      AcceptedIsChar(s);
    }
  }

  lemma EncodeThenDecode(codepoint: nat)
    requires IsScalar(codepoint)
    ensures IsChar(Encode(codepoint)) && Scalar(Encode(codepoint)) == codepoint
  {
    var n6 := Shr6(codepoint);
    var n12 := Shr6(n6);
    assert codepoint == n6 * 0x40 + Low6(codepoint) && n6 == n12 * 0x40 + Low6(n6);
    if codepoint > 0xFFFF {
      assert n12 == Shr6(n12) * 0x40 + Low6(n12);
    }
  }

  lemma SplitBits(high: nat, low: nat)
    requires low < 0x40
    ensures Shr6(high * 0x40 + low) == high && Low6(high * 0x40 + low) == low
  {
  }

  lemma DecodeThenEncode(u: bytes)
    requires IsChar(u)
    ensures IsScalar(Scalar(u)) && Encode(Scalar(u)) == u
  {
    hide Shr6, Low6;
    if |u| == 2 {
      SplitBits(Payload(u[0], 0xC0), Payload(u[1], 0x80));
    } else if |u| == 3 {
      ThreeBytesAgain(u);
    } else if |u| == 4 {
      FourBytesAgain(u);
    }
  }

  lemma ThreeBytesAgain(u: bytes)
    requires IsChar(u) && |u| == 3
    ensures IsScalar(Scalar(u)) && Encode(Scalar(u)) == u
  {
    hide Shr6, Low6;
    var n6 := Payload(u[0], 0xE0) * 0x40 + Payload(u[1], 0x80);
    SplitBits(Payload(u[0], 0xE0), Payload(u[1], 0x80));
    SplitBits(n6, Payload(u[2], 0x80));
  }

  lemma FourBytesAgain(u: bytes)
    requires IsChar(u) && |u| == 4
    ensures IsScalar(Scalar(u)) && Encode(Scalar(u)) == u
  {
    hide Shr6, Low6;
    var n12 := Payload(u[0], 0xF0) * 0x40 + Payload(u[1], 0x80);
    var n6 := n12 * 0x40 + Payload(u[2], 0x80);
    SplitBits(Payload(u[0], 0xF0), Payload(u[1], 0x80));
    SplitBits(n12, Payload(u[2], 0x80));
    SplitBits(n6, Payload(u[3], 0x80));
  }

  // ---------------------------------------------------------------- validation copies what decoding accepts

  lemma {:induction false} PutAllFollowsCopyAll(v: Validated, d: Decoded, masks: seq<set<byte>>)
    requires v.ok == d.ok && v.rest == d.rest
    requires forall i | 0 <= i < |masks| :: masks[i] <= ANY
    ensures PutAll(v, masks).ok == CopyAll(d, masks).ok
    ensures PutAll(v, masks).rest == CopyAll(d, masks).rest
    ensures PutAll(v, masks).ok ==> PutAll(v, masks).copied + PutAll(v, masks).rest == v.copied + v.rest
    decreases |masks|
  {
    if masks != [] {
      var v' := Put(v, masks[0]);
      PutAllFollowsCopyAll(v', Copy(d, masks[0]), masks[1..]);
      if v'.ok {
        assert v.rest == [v.rest[0]] + v'.rest;
        assert v'.copied + v'.rest == v.copied + v.rest;
      } else {
        PutAllFailed(v', masks[1..]);
      }
    }
  }

  lemma {:induction false} PutAllFailed(v: Validated, masks: seq<set<byte>>)
    requires !v.ok
    ensures !PutAll(v, masks).ok
    decreases |masks|
  {
    if masks != [] {
      PutAllFailed(Put(v, masks[0]), masks[1..]);
    }
  }

  /** Validate gives Decode's verdict, leaves the stream where Decode does, and copies an accepted character unchanged. */
  lemma ValidateIsDecode(s: bytes)
    requires s != []
    ensures ValidateOne(s).ok == DecodeOne(s).ok
    ensures ValidateOne(s).rest == DecodeOne(s).rest
    ensures ValidateOne(s).ok ==> ValidateOne(s).copied + ValidateOne(s).rest == s
  {
    if s[0] >= 0x80 {
      var range := GetRange(s[0]);
      var ok := range != 8 && range < 0x10;
      PutAllFollowsCopyAll(Validated(ok, [s[0]], s[1..]), Decoded(ok, LeadBits(s[0], range), s[1..]), Masks(range));
    }
  }

  lemma {:induction false} PutAllAdvances(v: Validated, masks: seq<set<byte>>)
    ensures |PutAll(v, masks).rest| <= |v.rest|
    decreases |masks|
  {
    if masks != [] {
      PutAllAdvances(Put(v, masks[0]), masks[1..]);
    }
  }

  lemma ValidateAdvances(s: bytes)
    requires s != []
    ensures |ValidateOne(s).rest| < |s|
  {
    var range := GetRange(s[0]);
    PutAllAdvances(Validated(range != 8 && range < 0x10, [s[0]], s[1..]), Masks(range));
  }

  // ---------------------------------------------------------------- whole strings

  lemma EncodeAllCons(codepoint: nat, codepoints: seq<nat>)
    requires IsScalar(codepoint) && AllScalars(codepoints)
    ensures AllScalars([codepoint] + codepoints)
    ensures EncodeAll([codepoint] + codepoints) == Encode(codepoint) + EncodeAll(codepoints)
  {
    hide Encode;
    assert ([codepoint] + codepoints)[1..] == codepoints;
  }

  lemma {:induction false} DecodeAllThenEncodeAll(s: bytes)
    requires WellFormed(s)
    ensures AllScalars(DecodeAll(s)) && EncodeAll(DecodeAll(s)) == s
  {
    hide IsChar, Scalar, Encode;
    if s != [] {
      var n := CharLength(s[0]);
      DecodeThenEncode(s[..n]);
      DecodeAllThenEncodeAll(s[n..]);
      EncodeAllCons(Scalar(s[..n]), DecodeAll(s[n..]));
      assert s[..n] + s[n..] == s;
    }
  }

  lemma {:induction false} EncodeAllThenDecodeAll(codepoints: seq<nat>)
    requires AllScalars(codepoints)
    ensures WellFormed(EncodeAll(codepoints)) && DecodeAll(EncodeAll(codepoints)) == codepoints
  {
    if codepoints != [] {
      var u, rest := Encode(codepoints[0]), EncodeAll(codepoints[1..]);
      EncodeThenDecode(codepoints[0]);
      EncodeAllThenDecodeAll(codepoints[1..]);
      assert (u + rest)[..|u|] == u && (u + rest)[|u|..] == rest;
      assert |u| == CharLength(u[0]);
    }
  }

  // ---------------------------------------------------------------- the methods over streams

  method Trans(input: InputStream, mask: set<byte>, codepoint: nat, ok: bool) returns (codepoint': nat, ok': bool)
    modifies input
    ensures Decoded(ok', codepoint', input.rest) == Copy(Decoded(ok, codepoint, old(input.rest)), mask)
  {
    var c := input.Take();
    codepoint' := codepoint * 0x40 + Low6(c);
    ok' := ok && InMask(c, mask);
  }

  method Decode(input: InputStream) returns (ok: bool, codepoint: nat)
    modifies input
    ensures Decoded(ok, codepoint, input.rest) == DecodeOne(old(input.rest))
  {
    hide CopyAll, InMask, LeadBits;
    var c := input.Take();
    if c < 0x80 {
      return true, c;
    }
    var range := GetRange(c);
    codepoint, ok := LeadBits(c, range), true;
    ghost var d := Decoded(range != 8 && range < 0x10, codepoint, input.rest);
    match range {
      case 2 =>
        codepoint, ok := Trans(input, ANY, codepoint, ok);
      case 3 =>
        codepoint, ok := Trans(input, ANY, codepoint, ok);
        codepoint, ok := Trans(input, ANY, codepoint, ok);
      case 4 =>
        codepoint, ok := Trans(input, {0x10, 0x40}, codepoint, ok);
        codepoint, ok := Trans(input, ANY, codepoint, ok);
      case 5 =>
        codepoint, ok := Trans(input, {0x10}, codepoint, ok);
        codepoint, ok := Trans(input, ANY, codepoint, ok);
        codepoint, ok := Trans(input, ANY, codepoint, ok);
      case 6 =>
        codepoint, ok := Trans(input, ANY, codepoint, ok);
        codepoint, ok := Trans(input, ANY, codepoint, ok);
        codepoint, ok := Trans(input, ANY, codepoint, ok);
      case 10 =>
        codepoint, ok := Trans(input, {0x20}, codepoint, ok);
        codepoint, ok := Trans(input, ANY, codepoint, ok);
      case 11 =>
        codepoint, ok := Trans(input, {0x20, 0x40}, codepoint, ok);
        codepoint, ok := Trans(input, ANY, codepoint, ok);
        codepoint, ok := Trans(input, ANY, codepoint, ok);
      case _ =>
        ok := false;
    }
    CopyAllUnrolled(d, Masks(range));
  }

  lemma CopyAllUnrolled(d: Decoded, masks: seq<set<byte>>)
    ensures masks == [] ==> CopyAll(d, masks) == d
    ensures |masks| == 1 ==> CopyAll(d, masks) == Copy(d, masks[0])
    ensures |masks| == 2 ==> CopyAll(d, masks) == Copy(Copy(d, masks[0]), masks[1])
    ensures |masks| == 3 ==> CopyAll(d, masks) == Copy(Copy(Copy(d, masks[0]), masks[1]), masks[2])
  {
    if 1 <= |masks| <= 3 {
      var d1 := Copy(d, masks[0]);
      assert CopyAll(d, masks) == CopyAll(d1, masks[1..]);
      if |masks| == 1 { return; }
      var d2 := Copy(d1, masks[1]);
      assert CopyAll(d1, masks[1..]) == CopyAll(d2, masks[1..][1..]);
      if |masks| == 3 {
        assert CopyAll(d2, masks[1..][1..]) == CopyAll(Copy(d2, masks[2]), masks[1..][1..][1..]);
      }
    }
  }

  method CopyTrans(input: InputStream, os: OutputStream, mask: set<byte>, ok: bool) returns (ok': bool)
    modifies input, os
    ensures Validated(ok', os.written, input.rest) == Put(Validated(ok, old(os.written), old(input.rest)), mask)
  {
    var c := input.Take();
    os.Put(c);
    ok' := ok && InMask(c, mask);
  }

  method Validate(input: InputStream, os: OutputStream) returns (ok: bool)
    modifies input, os
    ensures var v := ValidateOne(old(input.rest));
            ok == v.ok && os.written == old(os.written) + v.copied && input.rest == v.rest
  {
    hide PutAll, InMask;
    var c := input.Take();
    os.Put(c);
    if c < 0x80 {
      return true;
    }
    var range := GetRange(c);
    ok := true;
    ghost var v := Validated(range != 8 && range < 0x10, old(os.written) + [c], input.rest);
    match range {
      case 2 =>
        ok := CopyTrans(input, os, ANY, ok);
      case 3 =>
        ok := CopyTrans(input, os, ANY, ok);
        ok := CopyTrans(input, os, ANY, ok);
      case 4 =>
        ok := CopyTrans(input, os, {0x10, 0x40}, ok);
        ok := CopyTrans(input, os, ANY, ok);
      case 5 =>
        ok := CopyTrans(input, os, {0x10}, ok);
        ok := CopyTrans(input, os, ANY, ok);
        ok := CopyTrans(input, os, ANY, ok);
      case 6 =>
        ok := CopyTrans(input, os, ANY, ok);
        ok := CopyTrans(input, os, ANY, ok);
        ok := CopyTrans(input, os, ANY, ok);
      case 10 =>
        ok := CopyTrans(input, os, {0x20}, ok);
        ok := CopyTrans(input, os, ANY, ok);
      case 11 =>
        ok := CopyTrans(input, os, {0x20, 0x40}, ok);
        ok := CopyTrans(input, os, ANY, ok);
        ok := CopyTrans(input, os, ANY, ok);
      case _ =>
        ok := false;
    }
    PutAllUnrolled(v, Masks(range));
    PutAllAppends(v.(copied := [c]), v, Masks(range), old(os.written));
  }

  lemma PutAllUnrolled(v: Validated, masks: seq<set<byte>>)
    ensures masks == [] ==> PutAll(v, masks) == v
    ensures |masks| == 1 ==> PutAll(v, masks) == Put(v, masks[0])
    ensures |masks| == 2 ==> PutAll(v, masks) == Put(Put(v, masks[0]), masks[1])
    ensures |masks| == 3 ==> PutAll(v, masks) == Put(Put(Put(v, masks[0]), masks[1]), masks[2])
  {
    if 1 <= |masks| <= 3 {
      var v1 := Put(v, masks[0]);
      assert PutAll(v, masks) == PutAll(v1, masks[1..]);
      if |masks| == 1 { return; }
      var v2 := Put(v1, masks[1]);
      assert PutAll(v1, masks[1..]) == PutAll(v2, masks[1..][1..]);
      if |masks| == 3 {
        assert PutAll(v2, masks[1..][1..]) == PutAll(Put(v2, masks[2]), masks[1..][1..][1..]);
      }
    }
  }

  lemma {:induction false} PutAllAppends(v: Validated, w: Validated, masks: seq<set<byte>>, pre: bytes)
    requires w == v.(copied := pre + v.copied)
    ensures PutAll(w, masks) == PutAll(v, masks).(copied := pre + PutAll(v, masks).copied)
    decreases |masks|
  {
    if masks != [] {
      assert pre + (v.copied + [Peek(v.rest)]) == (pre + v.copied) + [Peek(v.rest)];
      PutAllAppends(Put(v, masks[0]), Put(w, masks[0]), masks[1..], pre);
    }
  }

  method EncodeTo(os: OutputStream, codepoint: nat)
    requires codepoint <= 0x10FFFF
    modifies os
    ensures os.written == old(os.written) + Encode(codepoint)
  {
    if codepoint <= 0x7F {
      os.Put(codepoint);
    } else if codepoint <= 0x7FF {
      os.Put(0xC0 + Shr6(codepoint));
      os.Put(0x80 + Low6(codepoint));
    } else if codepoint <= 0xFFFF {
      os.Put(0xE0 + Shr6(Shr6(codepoint)));
      os.Put(0x80 + Low6(Shr6(codepoint)));
      os.Put(0x80 + Low6(codepoint));
    } else {
      os.Put(0xF0 + Shr6(Shr6(Shr6(codepoint))));
      os.Put(0x80 + Low6(Shr6(Shr6(codepoint))));
      os.Put(0x80 + Low6(Shr6(codepoint)));
      os.Put(0x80 + Low6(codepoint));
    }
  }
}
