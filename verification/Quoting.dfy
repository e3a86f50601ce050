/** WriteString and ParseStringToStream undo each other (writer.h, reader.h). */
module Quoting {
  import opened Streams
  import opened ReaderSpec
  import opened Utf8

  /** The writer's escape table: what follows the backslash, 0 for bytes that stand for themselves. */
  function EscapeLetter(c: byte): byte {
    if c == 0x08 then 0x62
    else if c == 0x09 then 0x74
    else if c == 0x0A then 0x6E
    else if c == 0x0C then 0x66
    else if c == 0x0D then 0x72
    else if c < 0x20 then 0x75
    else if c == QUOTE || c == BACKSLASH then c
    else 0
  }

  function HexDigit(d: nat): (c: byte)
    requires d < 0x10
    ensures HexValue(c) == d
  {
    if d < 10 then 0x30 + d else 0x37 + d
  }

  /** The four hexDigits of a code unit. */
  function Hex4(u: nat): (text: bytes)
    requires u < 0x10000
    ensures |text| == 4
  {
    [HexDigit(u / 0x1000), HexDigit(u / 0x100 % 0x10), HexDigit(u / 0x10 % 0x10), HexDigit(u % 0x10)]
  }

  /** A character above ASCII in an ASCII text: one \u escape, or two for a surrogate pair. */
  function UnicodeEscape(codepoint: nat): bytes
    requires IsScalar(codepoint)
  {
    if codepoint <= 0xFFFF then [BACKSLASH, 0x75] + Hex4(codepoint) else
      var s := codepoint - 0x10000;
      [BACKSLASH, 0x75] + Hex4(s / 0x400 + 0xD800) + [BACKSLASH, 0x75] + Hex4(s % 0x400 + 0xDC00)
  }

  datatype Written = Written(ok: bool, text: bytes)

  /** The loop of WriteString. With `ascii` the target has no Unicode and what does not decode is refused, after the text
      of what comes before. */
  function WriteBody(ascii: bool, s: bytes): Written
    decreases |s|
  {
    if s == [] then Written(true, []) else
      var c := s[0];
      if ascii && c >= 0x80 then
        var d := DecodeOne(s);
        if !d.ok then Written(false, []) else
          var n := AcceptedLength(s);
          var w := WriteBody(ascii, d.rest);
          Written(w.ok, UnicodeEscape(d.codepoint) + w.text)
      else
        var w := WriteBody(ascii, s[1..]);
        Written(w.ok, EscapeByte(c) + w.text)
  }

  /** A byte and what it is written as. */
  function EscapeByte(c: byte): bytes {
    var e := EscapeLetter(c);
    if e == 0 then [c]
    else if e == 0x75 then [BACKSLASH, e, ZERO, ZERO, HexDigit(c / 0x10), HexDigit(c % 0x10)]
    else [BACKSLASH, e]
  }

  /** What Decode says of what it accepts. */
  function AcceptedLength(s: bytes): (n: nat)
    requires s != [] && DecodeOne(s).ok
    ensures 1 <= n <= |s| && IsChar(s[..n]) && n == CharLength(s[0])
    ensures DecodeOne(s) == Decoded(true, Scalar(s[..n]), s[n..])
    ensures IsScalar(DecodeOne(s).codepoint)
  {
    var n := CharLength(s[0]);
    AcceptedIsChar(s);
    DecodeIsExact(s);
    DecodeThenEncode(s[..n]);
    n
  }

  function WriteString(ascii: bool, s: bytes): Written {
    var w := WriteBody(ascii, s);
    Written(w.ok, [QUOTE] + w.text + [QUOTE])
  }

  // ---------------------------------------------------------------- escapes read back

  lemma ParseHexStep(h: Hex, n: nat, c: byte, tail: bytes)
    requires 1 <= n <= 4 && h.codepoint < HexBound(n) && h.rest == [c] + tail && HexValue(c) >= 0
    ensures ParseHex(h, n) == ParseHex(Hex(h.codepoint * 0x10 + HexValue(c), tail, h.error), n - 1)
  {
  }

  /** ParseHex4 reads what hexDigits wrote. */
  lemma HexReadsBack(u: nat, tail: bytes, error: ErrorCode)
    requires u < 0x10000
    ensures ParseHex4(Hex4(u) + tail, error) == Hex(u, tail, error)
  {
    hide HexValue, HexDigit, ParseHex;
    var d := Hex4(u);
    var h3, h2, h1 := u / 0x1000, u / 0x100, u / 0x10;
    InDigits(u);
    InFour(d, tail);
    ParseHexStep(Hex(0, d + tail, error), 4, d[0], [d[1]] + ([d[2]] + ([d[3]] + tail)));
    ParseHexStep(Hex(h3, [d[1]] + ([d[2]] + ([d[3]] + tail)), error), 3, d[1], [d[2]] + ([d[3]] + tail));
    ParseHexStep(Hex(h2, [d[2]] + ([d[3]] + tail), error), 2, d[2], [d[3]] + tail);
    ParseHexStep(Hex(h1, [d[3]] + tail, error), 1, d[3], tail);
    ParseHexDone(Hex(u, tail, error));
  }

  lemma InDigits(u: nat)
    ensures u / 0x100 == u / 0x1000 * 0x10 + u / 0x100 % 0x10 && u / 0x10 == u / 0x100 * 0x10 + u / 0x10 % 0x10
    ensures u == u / 0x10 * 0x10 + u % 0x10
  {
  }

  lemma InFour(d: bytes, tail: bytes)
    requires |d| == 4
    ensures d + tail == [d[0]] + ([d[1]] + ([d[2]] + ([d[3]] + tail)))
  {
  }

  lemma ParseHexDone(h: Hex)
    requires h.codepoint < 0x10000
    ensures ParseHex(h, 0) == h
  {
  }

  lemma TakeBackslashU(tail: bytes)
    ensures TakeAll([BACKSLASH, 0x75] + tail, [BACKSLASH, 0x75]) == Matched(true, tail)
  {
    var text, lit: bytes := [BACKSLASH, 0x75] + tail, [BACKSLASH, 0x75];
    assert text[1..] == [0x75] + tail && lit[1..] == [0x75];
    assert TakeAll(text, lit) == TakeAll([0x75] + tail, [0x75]);
    TakeFront([0x75], tail);
    assert [0x75][1..] + tail == tail;
  }

  /** What a \u escape reads as, once its four digits, or both fours, are read. */
  lemma UnicodeReadsBack(codepoint: nat, tail: bytes, error: ErrorCode)
    requires IsScalar(codepoint)
    ensures exists text :: UnicodeEscape(codepoint) + tail == [BACKSLASH, 0x75] + text &&
                           ParseUnicode(text, error) == Unicode(true, codepoint, tail, error)
  {
    hide Hex4, ParseHex4, TakeAll, HexBound;
    var text;
    if codepoint <= 0xFFFF {
      text := Hex4(codepoint) + tail;
      HexReadsBack(codepoint, tail, error);
    } else {
      var s := codepoint - 0x10000;
      var lead, trail := s / 0x400 + 0xD800, s % 0x400 + 0xDC00;
      var second := Hex4(trail) + tail;
      text := Hex4(lead) + ([BACKSLASH, 0x75] + second);
      HexReadsBack(lead, [BACKSLASH, 0x75] + second, error);
      TakeBackslashU(second);
      HexReadsBack(trail, tail, error);
    }
    assert UnicodeEscape(codepoint) + tail == [BACKSLASH, 0x75] + text;
  }

  // ---------------------------------------------------------------- one step of the scanner

  /** One escape written, one escape read. */
  lemma ScanUnicode(validate: bool, acc: bytes, codepoint: nat, tail: bytes)
    requires IsScalar(codepoint)
    ensures ScanString(validate, Scanned(acc, UnicodeEscape(codepoint) + tail, NoError)) ==
              ScanString(validate, Scanned(acc + Encode(codepoint), tail, NoError))
  {
    hide UnicodeEscape, ParseUnicode, Encode, ValidateOne;
    UnicodeReadsBack(codepoint, tail, NoError);
    var text :| UnicodeEscape(codepoint) + tail == [BACKSLASH, 0x75] + text &&
                ParseUnicode(text, NoError) == Unicode(true, codepoint, tail, NoError);
    assert ([BACKSLASH, 0x75] + text)[1..] == [0x75] + text;
    assert ([0x75] + text)[1..] == text;
  }

  lemma ScanEscape(validate: bool, acc: bytes, c: byte, tail: bytes)
    requires EscapeLetter(c) !in {0, 0x75}
    ensures ScanString(validate, Scanned(acc, [BACKSLASH, EscapeLetter(c)] + tail, NoError)) ==
              ScanString(validate, Scanned(acc + [c], tail, NoError))
  {
    hide ParseUnicode, ValidateOne, Encode;
    var text := [BACKSLASH, EscapeLetter(c)] + tail;
    assert text[1..] == [EscapeLetter(c)] + tail;
    assert text[1..][1..] == tail;
  }

  lemma ScanPlain(validate: bool, acc: bytes, c: byte, tail: bytes)
    requires EscapeLetter(c) == 0 && (c < 0x80 || !validate)
    ensures ScanString(validate, Scanned(acc, [c] + tail, NoError)) ==
              ScanString(validate, Scanned(acc + [c], tail, NoError))
  {
    hide ParseUnicode, Encode;
    assert ([c] + tail)[1..] == tail;
  }

  /** A byte below 0x80, or any byte when encodings are not validated, reads back as itself. */
  lemma ScanByte(validate: bool, acc: bytes, c: byte, tail: bytes)
    requires c < 0x80 || !validate
    ensures ScanString(validate, Scanned(acc, EscapeByte(c) + tail, NoError)) ==
              ScanString(validate, Scanned(acc + [c], tail, NoError))
  {
    hide ScanString;
    if EscapeLetter(c) == 0x75 {
      assert Hex4(c) == [ZERO, ZERO, HexDigit(c / 0x10), HexDigit(c % 0x10)];
      assert EscapeByte(c) == UnicodeEscape(c);
      ScanUnicode(validate, acc, c, tail);
    } else if EscapeLetter(c) != 0 {
      ScanEscape(validate, acc, c, tail);
    } else {
      ScanPlain(validate, acc, c, tail);
    }
  }

  // ---------------------------------------------------------------- whole strings

  lemma {:induction false} HighBytesAreCopied(u: bytes, rest: bytes)
    requires forall i | 0 <= i < |u| :: u[i] >= 0x80
    ensures WriteBody(false, u + rest) == Written(WriteBody(false, rest).ok, u + WriteBody(false, rest).text)
    decreases |u|
  {
    hide WriteBody;
    var w := WriteBody(false, rest);
    if u == [] {
      assert u + rest == rest && u + w.text == w.text;
    } else {
      HighByteIsCopied(u[0], u[1..] + rest);
      HighBytesAreCopied(u[1..], rest);
      assert [u[0]] + (u[1..] + rest) == u + rest;
      assert [u[0]] + (u[1..] + w.text) == u + w.text;
    }
  }

  lemma HighByteIsCopied(c: byte, rest: bytes)
    requires c >= 0x80
    ensures WriteBody(false, [c] + rest) == Written(WriteBody(false, rest).ok, [c] + WriteBody(false, rest).text)
  {
    assert ([c] + rest)[1..] == rest;
  }

  /** With validation on, the scanner takes a well-formed character whole. */
  lemma ScanCharacter(acc: bytes, u: bytes, tail: bytes)
    requires IsChar(u) && u[0] >= 0x80
    ensures ScanString(true, Scanned(acc, u + tail, NoError)) == ScanString(true, Scanned(acc + u, tail, NoError))
  {
    DecodeChar(u, tail);
    ValidateIsDecode(u + tail);
    var v := ValidateOne(u + tail);
    assert v.copied == u by {
      hide ValidateOne, DecodeOne, IsChar;
      assert |v.copied| == |u|;
      assert (v.copied + tail)[..|u|] == v.copied && (u + tail)[..|u|] == u;
    }
    hide ValidateOne, DecodeOne, IsChar, ParseUnicode;
  }

  function Body(ascii: bool, s: bytes): bytes {
    WriteBody(ascii, s).text
  }

  /** One turn of both loops: `n` bytes of the string, the piece of text they are written as. */
  lemma OneTurn(ascii: bool, validate: bool, s: bytes, acc: bytes, tail: bytes) returns (n: nat, piece: bytes)
    requires s != [] && (s[0] < 0x80 || (!ascii && !validate) || DecodeOne(s).ok)
    ensures 1 <= n <= |s| && (ascii || validate ==> (WellFormed(s) <==> WellFormed(s[n..])))
    ensures var w := WriteBody(ascii, s[n..]);
            && WriteBody(ascii, s) == Written(w.ok, piece + w.text)
            && ScanString(validate, Scanned(acc, piece + (w.text + tail), NoError)) ==
                 ScanString(validate, Scanned(acc + s[..n], w.text + tail, NoError))
  {
    hide ScanString, DecodeOne, IsChar;
    if s[0] < 0x80 || (!ascii && !validate) {
      n, piece := 1, EscapeByte(s[0]);
      if s[0] < 0x80 {
        AsciiIsChar(s);
      }
      ScanByte(validate, acc, s[0], Body(ascii, s[1..]) + tail);
      assert s[..1] == [s[0]];
    } else {
      n := AcceptedLength(s);
      piece := WriteCharacter(ascii, s);
      if ascii {
        ScanUnicode(validate, acc, DecodeOne(s).codepoint, Body(ascii, s[n..]) + tail);
        DecodeThenEncode(s[..n]);
      } else {
        ScanCharacter(acc, s[..n], Body(ascii, s[n..]) + tail);
      }
    }
  }

  lemma AsciiIsChar(s: bytes)
    requires s != [] && s[0] < 0x80
    ensures WellFormed(s) <==> WellFormed(s[1..])
  {
  }

  lemma WriteCharacter(ascii: bool, s: bytes) returns (piece: bytes)
    requires s != [] && s[0] >= 0x80 && DecodeOne(s).ok
    ensures var n := AcceptedLength(s);
            && WriteBody(ascii, s) == Written(WriteBody(ascii, s[n..]).ok, piece + Body(ascii, s[n..]))
            && piece == if ascii then UnicodeEscape(DecodeOne(s).codepoint) else s[..n]
  {
    hide UnicodeEscape, DecodeOne, IsChar;
    var n := AcceptedLength(s);
    piece := if ascii then UnicodeEscape(DecodeOne(s).codepoint) else s[..n];
    if !ascii {
      AllHigh(s[..n]);
      HighBytesAreCopied(s[..n], s[n..]);
      assert s == s[..n] + s[n..];
    }
  }

  lemma WellFormedDecodes(s: bytes)
    requires s != [] && WellFormed(s)
    ensures DecodeOne(s).ok
  {
    var n := CharLength(s[0]);
    assert s == s[..n] + s[n..];
    DecodeChar(s[..n], s[n..]);
  }

  lemma AllHigh(u: bytes)
    requires IsChar(u) && u[0] >= 0x80
    ensures forall i | 0 <= i < |u| :: u[i] >= 0x80
  {
  }

  /** Reading a string back gives what was written: any bytes from UTF-8 to UTF-8; well-formed UTF-8 through an ASCII
      text, or when the reader validates encodings. */
  lemma {:induction false} StringReadsBack(ascii: bool, validate: bool, s: bytes, acc: bytes, post: bytes)
    requires ascii || validate ==> WellFormed(s)
    ensures WriteBody(ascii, s).ok
    ensures ScanString(validate, Scanned(acc, Body(ascii, s) + ([QUOTE] + post), NoError)) ==
              Scanned(acc + s, post, NoError)
    decreases |s|
  {
    hide ScanString, WriteBody, WellFormed;
    var tail := [QUOTE] + post;
    if s == [] {
      WriteNothing(ascii);
      ScanEnd(validate, acc, post);
      assert Body(ascii, s) + tail == tail && acc + s == acc;
    } else {
      if ascii || validate {
        WellFormedDecodes(s);
      }
      var n, piece := OneTurn(ascii, validate, s, acc, tail);
      StringReadsBack(ascii, validate, s[n..], acc + s[..n], post);
      assert Body(ascii, s) + tail == piece + (Body(ascii, s[n..]) + tail);
      assert acc + s[..n] + s[n..] == acc + s;
    }
  }

  lemma WriteNothing(ascii: bool)
    ensures WriteBody(ascii, []) == Written(true, [])
  {
  }

  lemma ScanEnd(validate: bool, acc: bytes, post: bytes)
    ensures ScanString(validate, Scanned(acc, [QUOTE] + post, NoError)) == Scanned(acc, post, NoError)
  {
    TakeFront([QUOTE], post);
    assert [QUOTE][1..] + post == post;
  }

  /** An ASCII writer takes exactly the well-formed strings. */
  lemma {:induction false} AsciiTakesWellFormed(s: bytes)
    ensures WriteBody(true, s).ok <==> WellFormed(s)
    decreases |s|
  {
    if s != [] {
      if s[0] < 0x80 {
        AsciiTakesWellFormed(s[1..]);
      } else if DecodeOne(s).ok {
        var n := AcceptedLength(s);
        AsciiTakesWellFormed(s[n..]);
      } else {
        DecodeIsExact(s);
      }
    }
  }

  /** The high bytes a text begins with are the high bytes its string begins with. */
  lemma {:induction false} HighPrefix(s: bytes, tail: bytes, n: nat)
    requires tail != [] && tail[0] < 0x80
    requires var text := Body(false, s) + tail; n <= |text| && forall i | 0 <= i < n :: text[i] >= 0x80
    ensures n <= |s| && (Body(false, s) + tail)[..n] == s[..n]
    decreases n
  {
    hide Body;
    var text := Body(false, s) + tail;
    if n > 0 {
      assert text[0] >= 0x80;
      HighFirst(s, tail);
      var text1 := Body(false, s[1..]) + tail;
      assert forall i | 0 <= i < n - 1 :: text1[i] == text[i + 1];
      HighPrefix(s[1..], tail, n - 1);
      assert text[..n] == [s[0]] + text1[..n - 1];
    }
  }

  lemma HighFirst(s: bytes, tail: bytes)
    requires tail != [] && tail[0] < 0x80 && (Body(false, s) + tail)[0] >= 0x80
    ensures s != [] && Body(false, s) + tail == [s[0]] + (Body(false, s[1..]) + tail)
  {
    if s != [] {
      assert Body(false, s) == EscapeByte(s[0]) + Body(false, s[1..]);
      assert EscapeByte(s[0])[0] == (Body(false, s) + tail)[0];
      assert EscapeByte(s[0]) == [s[0]];
    }
  }

  /** A validating reader refuses every ill-formed string the writer copied. */
  lemma {:induction false} IllFormedIsRefused(s: bytes, acc: bytes, post: bytes)
    requires !WellFormed(s)
    ensures ScanString(true, Scanned(acc, Body(false, s) + ([QUOTE] + post), NoError)).error == StringInvalidEncoding
    decreases |s|
  {
    hide ScanString, WriteBody;
    var tail := [QUOTE] + post;
    if s[0] < 0x80 || DecodeOne(s).ok {
      var n, piece := OneTurn(false, true, s, acc, tail);
      IllFormedIsRefused(s[n..], acc + s[..n], post);
      assert Body(false, s) + tail == piece + (Body(false, s[n..]) + tail);
    } else {
      FirstIsRefused(s, acc, tail);
    }
  }

  lemma FirstStays(s: bytes)
    requires s != [] && s[0] >= 0x80
    ensures Body(false, s) != [] && Body(false, s)[0] == s[0]
  {
    assert Body(false, s) == EscapeByte(s[0]) + Body(false, s[1..]);
  }

  lemma FirstIsRefused(s: bytes, acc: bytes, tail: bytes)
    requires s != [] && s[0] >= 0x80 && !DecodeOne(s).ok && tail != [] && tail[0] < 0x80
    ensures ScanString(true, Scanned(acc, Body(false, s) + tail, NoError)).error == StringInvalidEncoding
  {
    hide WriteBody, DecodeOne, ValidateOne, ParseUnicode, Encode, EscapeByte, IsChar;
    var text := Body(false, s) + tail;
    FirstStays(s);
    DecodeIsExact(text);
    DecodeIsExact(s);
    ValidateIsDecode(text);
    if DecodeOne(text).ok {
      var n :| 1 <= n <= |text| && IsChar(text[..n]);
      assert text[..n][0] == text[0];
      AllHigh(text[..n]);
      assert forall i | 0 <= i < n :: text[i] == text[..n][i];
      HighPrefix(s, tail, n);
    }
  }

  /** When a string survives the trip: the writer refuses exactly the ill-formed strings of an ASCII target, a validating
      reader exactly the ill-formed strings it is given, and nothing else is lost or changed. */
  lemma StringRoundTrip(ascii: bool, validate: bool, s: bytes, post: bytes)
    ensures WriteString(ascii, s).ok <==> !ascii || WellFormed(s)
    ensures WriteString(ascii, s).ok ==>
              var r := ScanString(validate, Scanned([], WriteString(ascii, s).text[1..] + post, NoError));
              if validate && !WellFormed(s) then r.error == StringInvalidEncoding
              else r == Scanned(s, post, NoError)
  {
    hide ScanString, WriteBody, WellFormed;
    var w := WriteString(ascii, s);
    assert w.text[1..] + post == Body(ascii, s) + ([QUOTE] + post);
    if ascii {
      AsciiTakesWellFormed(s);
    }
    if (ascii || validate) && !WellFormed(s) {
      if !ascii {
        Utf8TakesAll(s);
        IllFormedIsRefused(s, [], post);
      }
    } else {
      StringReadsBack(ascii, validate, s, [], post);
      assert [] + s == s;
    }
  }

  lemma {:induction false} Utf8TakesAll(s: bytes)
    ensures WriteBody(false, s).ok
    decreases |s|
  {
    if s != [] {
      Utf8TakesAll(s[1..]);
    }
  }
}
