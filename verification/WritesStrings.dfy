/** What WriteString spells a string with: nothing is escaped that need not be, letters before code units, digits in
    upper case (writer.h, section 2.5 of RFC 4627). */
module WritesStrings {
  import opened Streams
  import opened Json
  import Quoting
  import Utf8

  /** The digits of a code unit in upper case. */
  predicate UpperDigits(digits: bytes, u: nat) {
    && |digits| == 4 && u < 0x10000
    && digits[0] == UPPER[u / 0x1000] && digits[1] == UPPER[u / 0x100 % 0x10]
    && digits[2] == UPPER[u / 0x10 % 0x10] && digits[3] == UPPER[u % 0x10]
  }

  /** Whether a part is spelled the one way a writer with this target does. */
  ghost predicate Canonical(ascii: bool, p: Piece) {
    match p
    case Itself(text) =>
      |text| == 1 && text[0] >= 0x20 && text[0] != QUOTE && text[0] != BACKSLASH && (ascii ==> text[0] < 0x80)
    case Letter(letter, c) => StandsFor(letter, c) && letter != 0x2F
    case Unit(u, digits) =>
      && UpperDigits(digits, u)
      && if u < 0x20 then forall letter: byte :: !StandsFor(letter, u) else ascii && u >= 0x80 && Utf8.IsScalar(u)
    case Pair(high, highDigits, low, lowDigits) =>
      ascii && IsHigh(high) && UpperDigits(highDigits, high) && IsLow(low) && UpperDigits(lowDigits, low)
  }

  ghost predicate AllCanonical(ascii: bool, ps: Pieces) {
    ps.More? ==> Canonical(ascii, ps.piece) && AllCanonical(ascii, ps.others)
  }

  lemma Table(d: nat)
    requires d < 0x10
    ensures UPPER[d] == Quoting.HexDigit(d)
  {
    if d < 4 {} else if d < 8 {} else if d < 12 {} else {}
  }

  lemma Hex4IsUpper(u: nat)
    requires u < 0x10000
    ensures UpperDigits(Quoting.Hex4(u), u)
  {
    hide Quoting.HexDigit;
    Table(u / 0x1000);
    Table(u / 0x100 % 0x10);
    Table(u / 0x10 % 0x10);
    Table(u % 0x10);
  }

  lemma UpperSpells(digits: bytes, u: nat)
    requires UpperDigits(digits, u)
    ensures SpellsUnit(digits, u)
  {
  }

  lemma CanonicalIsValid(ascii: bool, p: Piece)
    requires Canonical(ascii, p)
    ensures ValidPiece(false, p)
  {
    match p
    case Unit(u, digits) => UpperSpells(digits, u);
    case Pair(high, highDigits, low, lowDigits) =>
      UpperSpells(highDigits, high);
      UpperSpells(lowDigits, low);
    case _ =>
  }

  /** The part a byte is written as. */
  lemma ByteIs(c: byte, ascii: bool) returns (p: Piece)
    requires ascii ==> c < 0x80
    ensures Canonical(ascii, p) && ValidPiece(false, p) && PieceText(p) == Quoting.EscapeByte(c) && PieceMeans(false, p) == [c]
  {
    var e := Quoting.EscapeLetter(c);
    if e == 0 {
      p := Itself([c]);
    } else if e == 0x75 {
      NoLetterFor(c);
      p := Unit(c, Quoting.Hex4(c));
      Hex4IsUpper(c);
      SmallUnit(c);
    } else {
      LetterFor(c);
      p := Letter(e, c);
    }
    CanonicalIsValid(ascii, p);
  }

  lemma SmallUnit(c: byte)
    ensures [BACKSLASH, 0x75] + Quoting.Hex4(c)
            == [BACKSLASH, 0x75, ZERO, ZERO, Quoting.HexDigit(c / 0x10), Quoting.HexDigit(c % 0x10)]
    ensures c < 0x20 ==> Utf8.Encode(c) == [c]
  {
    assert c / 0x1000 == 0 && c / 0x100 == 0 && c / 0x10 % 0x10 == c / 0x10;
  }

  lemma LetterFor(c: byte)
    requires Quoting.EscapeLetter(c) != 0 && Quoting.EscapeLetter(c) != 0x75
    ensures StandsFor(Quoting.EscapeLetter(c), c) && Quoting.EscapeLetter(c) != 0x2F
  {
    var i := if c == 0x22 then 0 else if c == 0x5C then 1 else if c == 0x08 then 3 else if c == 0x0C then 4
             else if c == 0x0A then 5 else if c == 0x0D then 6 else 7;
    assert LETTERS[i] == Quoting.EscapeLetter(c) && MEANINGS[i] == c;
  }

  lemma NoLetterFor(c: byte)
    requires Quoting.EscapeLetter(c) == 0x75
    ensures c < 0x20 && forall letter: byte :: !StandsFor(letter, c)
  {
    forall i | 0 <= i < |LETTERS| ensures MEANINGS[i] != c {
      if i < 4 {} else {}
    }
  }

  /** The part a character above ASCII is written as for an ASCII target. */
  lemma CharIs(codepoint: nat) returns (p: Piece)
    requires Utf8.IsScalar(codepoint) && codepoint >= 0x80
    ensures Canonical(true, p) && ValidPiece(false, p) && PieceText(p) == Quoting.UnicodeEscape(codepoint)
    ensures PieceMeans(false, p) == Utf8.Encode(codepoint)
  {
    hide Utf8.Encode, UpperDigits, Quoting.Hex4, SpellsUnit;
    if codepoint <= 0xFFFF {
      p := Unit(codepoint, Quoting.Hex4(codepoint));
      Hex4IsUpper(codepoint);
      CanonicalIsValid(true, p);
    } else {
      p := PairIs(codepoint);
    }
  }

  lemma PairIs(codepoint: nat) returns (p: Piece)
    requires 0x10000 <= codepoint <= 0x10FFFF
    ensures Canonical(true, p) && ValidPiece(false, p) && PieceText(p) == Quoting.UnicodeEscape(codepoint)
    ensures PieceMeans(false, p) == Utf8.Encode(codepoint)
  {
    hide Utf8.Encode, UpperDigits, Quoting.Hex4, SpellsUnit;
    var s := codepoint - 0x10000;
    var high, low := s / 0x400 + 0xD800, s % 0x400 + 0xDC00;
    p := Pair(high, Quoting.Hex4(high), low, Quoting.Hex4(low));
    Hex4IsUpper(high);
    Hex4IsUpper(low);
    Associate([BACKSLASH, 0x75] + Quoting.Hex4(high), [BACKSLASH, 0x75], Quoting.Hex4(low));
    CanonicalIsValid(true, p);
  }

  lemma {:induction false} BodyIs(ascii: bool, s: bytes) returns (ps: Pieces)
    requires Quoting.WriteBody(ascii, s).ok
    ensures AllCanonical(ascii, ps) && ValidPieces(false, ps)
    ensures PiecesText(ps) == Quoting.WriteBody(ascii, s).text && PiecesMean(false, ps) == s
    decreases |s|
  {
    hide *;
    if s == [] {
      ps := NoPiece;
      NothingIs(ascii);
    } else {
      var p, rest := FirstPiece(ascii, s);
      var others := BodyIs(ascii, rest);
      ps := OneMorePiece(ascii, p, others);
    }
  }

  lemma NothingIs(ascii: bool)
    ensures AllCanonical(ascii, NoPiece) && ValidPieces(false, NoPiece)
    ensures PiecesText(NoPiece) == Quoting.WriteBody(ascii, []).text && PiecesMean(false, NoPiece) == []
  {
  }

  lemma OneMorePiece(ascii: bool, p: Piece, others: Pieces) returns (ps: Pieces)
    requires Canonical(ascii, p) && ValidPiece(false, p) && AllCanonical(ascii, others) && ValidPieces(false, others)
    ensures AllCanonical(ascii, ps) && ValidPieces(false, ps)
    ensures PiecesText(ps) == PieceText(p) + PiecesText(others)
    ensures PiecesMean(false, ps) == PieceMeans(false, p) + PiecesMean(false, others)
  {
    hide Canonical, ValidPiece, PieceText, PieceMeans;
    ps := More(p, others);
  }

  /** The part that a written string begins with, and what it leaves to be written. */
  lemma FirstPiece(ascii: bool, s: bytes) returns (p: Piece, rest: bytes)
    requires s != [] && Quoting.WriteBody(ascii, s).ok
    ensures Canonical(ascii, p) && ValidPiece(false, p) && PieceMeans(false, p) + rest == s && |rest| < |s|
    ensures Quoting.WriteBody(ascii, rest).ok
    ensures Quoting.WriteBody(ascii, s).text == PieceText(p) + Quoting.WriteBody(ascii, rest).text
  {
    hide Canonical, ValidPiece, PieceText, PieceMeans, Quoting.EscapeByte, Quoting.UnicodeEscape, Utf8.DecodeOne, Utf8.Encode,
      Utf8.IsChar;
    if ascii && s[0] >= 0x80 {
      DecodedIs(s);
      var d := Utf8.DecodeOne(s);
      p := CharIs(d.codepoint);
      rest := d.rest;
    } else {
      p := ByteIs(s[0], ascii);
      rest := s[1..];
    }
  }

  lemma DecodedIs(s: bytes)
    requires s != [] && s[0] >= 0x80 && Utf8.DecodeOne(s).ok
    ensures var d := Utf8.DecodeOne(s);
            Utf8.IsScalar(d.codepoint) && d.codepoint >= 0x80 && |d.rest| < |s| && Utf8.Encode(d.codepoint) + d.rest == s
  {
    hide Utf8.DecodeOne, Utf8.Encode, Utf8.Scalar;
    var n := Quoting.AcceptedLength(s);
    Utf8.DecodeThenEncode(s[..n]);
    LowIsItself(Utf8.DecodeOne(s).codepoint);
    assert s == s[..n] + s[n..];
  }

  lemma LowIsItself(codepoint: nat)
    requires codepoint <= 0x10FFFF
    ensures codepoint < 0x80 ==> Utf8.Encode(codepoint) == [codepoint]
    ensures Utf8.Encode(codepoint) != []
  {
  }

  /** A string that is written is spelled in this one way, and says what it was. */
  lemma SpelledCanonically(ascii: bool, s: bytes) returns (ps: Pieces)
    requires Quoting.WriteString(ascii, s).ok
    ensures AllCanonical(ascii, ps) && ValidPieces(false, ps)
    ensures Quoting.WriteString(ascii, s).text == StringText(ps) && PiecesMean(false, ps) == s
  {
    hide Quoting.WriteBody, PiecesText;
    ps := BodyIs(ascii, s);
    Associate([QUOTE], PiecesText(ps), [QUOTE]);
  }
}
