/** What a validating reader lets through: raw bytes are checked, escapes are not (reader.h, section 2.5 of RFC 4627). */
module ValidatedStrings {
  import opened Streams
  import opened ReaderSpec
  import opened Utf8
  import Quoting

  /** Whether an escape of the string that `rest` begins with is a low surrogate that no high one precedes. */
  predicate LoneLow(rest: bytes)
    decreases |rest|
  {
    var c := Peek(rest);
    if c == BACKSLASH then
      var e := Peek(Next(rest));
      if Unescape(e) != 0 then LoneLow(Next(Next(rest)))
      else if e == 0x75 then
        var u := ParseUnicode(Next(Next(rest)), NoError);
        u.ok && (0xDC00 <= u.codepoint <= 0xDFFF || LoneLow(u.rest))
      else false
    else if c == QUOTE || c < 0x20 then false
    else
      ValidateAdvances(rest);
      LoneLow(ValidateOne(rest).rest)
  }

  /** One character in front of a text. */
  lemma CharInFront(u: bytes, text: bytes)
    requires IsChar(u)
    ensures WellFormed(u + text) <==> WellFormed(text)
  {
    var s := u + text;
    assert CharLength(s[0]) == |u| && s[..|u|] == u && s[|u|..] == text;
  }

  /** A surrogate in front of a text spoils it. */
  lemma SurrogateInFront(codepoint: nat, text: bytes)
    requires 0xDC00 <= codepoint <= 0xDFFF
    ensures !WellFormed(Encode(codepoint) + text)
  {
    var u := Encode(codepoint);
    var s := u + text;
    assert |u| == 3 && u[0] == 0xED && u[1] >= 0xA0 by { LowSurrogateBytes(codepoint); }
    assert CharLength(s[0]) == 3 && s[..3] == u;
  }

  lemma LowSurrogateBytes(codepoint: nat)
    requires 0xDC00 <= codepoint <= 0xDFFF
    ensures var u := Encode(codepoint); |u| == 3 && u[0] == 0xED && u[1] >= 0xA0
  {
  }

  /** What one turn of the reader appends to the string. */
  lemma Appended(acc: bytes, piece: bytes, text: bytes)
    requires |acc| + |piece| <= |text| && text[..|acc| + |piece|] == acc + piece
    ensures text[..|acc|] == acc && text[|acc|..] == piece + text[|acc| + |piece|..]
  {
  }

  lemma CopiedIsChar(s: bytes)
    requires s != [] && ValidateOne(s).ok
    ensures IsChar(ValidateOne(s).copied)
  {
    hide ValidateOne, DecodeOne, IsChar;
    ValidateIsDecode(s);
    AcceptedIsChar(s);
    var n := CharLength(s[0]);
    DecodeChar(s[..n], s[n..]);
    assert s == s[..n] + s[n..];
    assert ValidateOne(s).copied == s[..n];
  }

  /** A validating reader that accepts a string makes a well-formed one exactly if no escape in it is a lone low
      surrogate. */
  lemma {:induction false} WellFormedUnlessLoneLow(acc: bytes, rest: bytes)
    requires ScanString(true, Scanned(acc, rest, NoError)).error == NoError
    ensures var text := ScanString(true, Scanned(acc, rest, NoError)).text;
            |acc| <= |text| && text[..|acc|] == acc && (WellFormed(text[|acc|..]) <==> !LoneLow(rest))
    decreases |rest|
  {
    hide WellFormed, IsChar, Encode, ParseUnicode, ValidateOne, DecodeOne;
    var r := ScanString(true, Scanned(acc, rest, NoError));
    var c := Peek(rest);
    if c == BACKSLASH {
      var e := Peek(Next(rest));
      var behind := Next(Next(rest));
      if Unescape(e) != 0 {
        WellFormedUnlessLoneLow(acc + [Unescape(e)], behind);
        Appended(acc, [Unescape(e)], r.text);
        EscapeIsChar(e);
        CharInFront([Unescape(e)], r.text[|acc| + 1..]);
      } else {
        var u := ParseUnicode(behind, NoError);
        var piece := Encode(u.codepoint);
        WellFormedUnlessLoneLow(acc + piece, u.rest);
        Appended(acc, piece, r.text);
        UnicodeRange(behind);
        if 0xDC00 <= u.codepoint <= 0xDFFF {
          SurrogateInFront(u.codepoint, r.text[|acc| + |piece|..]);
        } else {
          EncodeThenDecode(u.codepoint);
          CharInFront(piece, r.text[|acc| + |piece|..]);
        }
      }
    } else if c == QUOTE {
      assert r.text[|acc|..] == [];
      NothingIsWellFormed();
    } else {
      var v := ValidateOne(rest);
      ValidateAdvances(rest);
      WellFormedUnlessLoneLow(acc + v.copied, v.rest);
      Appended(acc, v.copied, r.text);
      CopiedIsChar(rest);
      CharInFront(v.copied, r.text[|acc| + |v.copied|..]);
    }
  }

  lemma EscapeIsChar(e: byte)
    requires Unescape(e) != 0
    ensures IsChar([Unescape(e)])
  {
  }

  lemma NothingIsWellFormed()
    ensures WellFormed([])
  {
  }

  /** An escape or a pair of them gives a scalar value or a lone low surrogate. */
  lemma UnicodeRange(rest: bytes)
    requires ParseUnicode(rest, NoError).ok
    ensures var c := ParseUnicode(rest, NoError).codepoint; IsScalar(c) || 0xDC00 <= c <= 0xDFFF
  {
    hide ReaderSpec.ParseHex4;
  }

  /** There are such strings: the escape of a low surrogate alone is accepted, for every one of them. */
  lemma LoneLowIsAccepted(low: nat, post: bytes)
    requires 0xDC00 <= low <= 0xDFFF
    ensures var text := [BACKSLASH, 0x75] + (Quoting.Hex4(low) + ([QUOTE] + post));
            ScanString(true, Scanned([], text, NoError)) == Scanned(Encode(low), post, NoError) && !WellFormed(Encode(low))
  {
    hide Encode, WellFormed, ReaderSpec.ParseHex4, ValidateOne;
    var behind := Quoting.Hex4(low) + ([QUOTE] + post);
    var text := [BACKSLASH, 0x75] + behind;
    Quoting.HexReadsBack(low, [QUOTE] + post, NoError);
    assert text[1..] == [0x75] + behind && text[1..][1..] == behind;
    assert ScanString(true, Scanned([], text, NoError)) == ScanString(true, Scanned([] + Encode(low), [QUOTE] + post, NoError));
    assert [] + Encode(low) == Encode(low) && Encode(low) + [] == Encode(low);
    Quoting.ScanEnd(true, Encode(low), post);
    SurrogateInFront(low, []);
  }
}
