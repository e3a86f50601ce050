/** ParseStringToStream accepts exactly the strings of section 2.5 of RFC 4627, and makes of them what they say
    (reader.h). */
module ReadsStrings {
  import opened Streams
  import opened ReaderSpec
  import opened Json
  import Utf8

  // ---------------------------------------------------------------- hex digits

  /** Digits in either case, and no other bytes. */
  lemma DigitIs(c: byte, d: nat)
    ensures HexValue(c) == d <==> SpellsDigit(c, d)
  {
    if SpellsDigit(c, d) {
      Table(d);
    } else if HexValue(c) == d {
      Table(d);
      assert false;
    }
  }

  lemma Table(d: nat)
    requires d < 0x10
    ensures UPPER[d] == (if d < 10 then 0x30 + d else 0x37 + d) && LOWER[d] == (if d < 10 then 0x30 + d else 0x57 + d)
  {
    if d < 4 {} else if d < 8 {} else if d < 12 {} else {}
  }

  /** One digit of four. */
  lemma OneDigit(h: Hex, n: nat, d: nat)
    requires 1 <= n <= 4 && h.codepoint < HexBound(n) && h.rest != [] && SpellsDigit(h.rest[0], d)
    ensures ParseHex(h, n) == ParseHex(Hex(h.codepoint * 0x10 + d, h.rest[1..], h.error), n - 1)
  {
    DigitIs(h.rest[0], d);
    hide HexValue, SpellsDigit;
  }

  /** Four digits, in any case, are read as the code unit they spell. */
  lemma ReadsUnit(u: nat, digits: bytes, tail: bytes, error: ErrorCode)
    requires SpellsUnit(digits, u)
    ensures ParseHex4(digits + tail, error) == Hex(u, tail, error)
  {
    hide ParseHex, SpellsDigit;
    var d := digits;
    var h3, h2, h1 := u / 0x1000, u / 0x100, u / 0x10;
    InDigits(u);
    assert d[0..] == d && d[4..] + tail == tail;
    DropOne(d, 0, tail);
    OneDigit(Hex(0, d + tail, error), 4, h3);
    DropOne(d, 1, tail);
    OneDigit(Hex(h3, d[1..] + tail, error), 3, u / 0x100 % 0x10);
    DropOne(d, 2, tail);
    OneDigit(Hex(h2, d[2..] + tail, error), 2, u / 0x10 % 0x10);
    DropOne(d, 3, tail);
    OneDigit(Hex(h1, d[3..] + tail, error), 1, u % 0x10);
    NoDigitLeft(Hex(u, tail, error));
  }

  lemma DropOne(d: bytes, k: nat, tail: bytes)
    requires k < |d|
    ensures d[k..] + tail != [] && (d[k..] + tail)[0] == d[k] && (d[k..] + tail)[1..] == d[k + 1..] + tail
  {
  }

  lemma InDigits(u: nat)
    ensures u / 0x100 == u / 0x1000 * 0x10 + u / 0x100 % 0x10 && u / 0x10 == u / 0x100 * 0x10 + u / 0x10 % 0x10
    ensures u == u / 0x10 * 0x10 + u % 0x10
  {
  }

  lemma NoDigitLeft(h: Hex)
    requires h.codepoint < 0x10000
    ensures ParseHex(h, 0) == h
  {
  }

  /** Reading digits without an error means that they are there. */
  lemma {:induction false} TellsDigits(h: Hex, n: nat)
    requires n <= 4 && h.codepoint < HexBound(n) && h.error == NoError && ParseHex(h, n).error == NoError
    ensures |h.rest| >= n && ParseHex(h, n).rest == h.rest[n..]
    ensures forall i | 0 <= i < n :: HexValue(h.rest[i]) >= 0
    decreases n
  {
    if n > 0 {
      var d := HexValue(Peek(h.rest));
      assert Peek([]) == 0 && HexValue(0) == -1;
      TellsDigits(Hex(h.codepoint * 0x10 + d, Next(h.rest), h.error), n - 1);
      hide ParseHex;
      assert forall i | 1 <= i < n :: h.rest[i] == h.rest[1..][i - 1];
    }
  }

  /** The unit that four digits spell. */
  function UnitOf(a: nat, b: nat, c: nat, d: nat): (u: nat)
    requires a < 0x10 && b < 0x10 && c < 0x10 && d < 0x10
    ensures u < 0x10000 && u / 0x1000 == a && u / 0x100 % 0x10 == b && u / 0x10 % 0x10 == c && u % 0x10 == d
  {
    var u := Behind(Behind(Behind(a, b), c), d);
    InSteps(u);
    u
  }

  /** One more digit. */
  function Behind(x: nat, d: nat): (u: nat)
    requires d < 0x10
    ensures u / 0x10 == x && u % 0x10 == d && u < 0x10 * (x + 1)
  {
    x * 0x10 + d
  }

  lemma InSteps(u: nat)
    ensures u / 0x100 == u / 0x10 / 0x10 && u / 0x1000 == u / 0x10 / 0x10 / 0x10
  {
  }

  /** Four bytes are read without an error exactly if they spell a code unit, which is then the one read. */
  lemma UnitIsExact(rest: bytes) returns (u: nat)
    ensures ParseHex4(rest, NoError).error == NoError <==> |rest| >= 4 && SpellsUnit(rest[..4], u)
    ensures |rest| >= 4 && SpellsUnit(rest[..4], u) ==> ParseHex4(rest, NoError) == Hex(u, rest[4..], NoError)
    ensures forall v | |rest| >= 4 && SpellsUnit(rest[..4], v) :: v == u
  {
    hide ParseHex, HexValue, SpellsDigit;
    u := 0;
    if ParseHex4(rest, NoError).error == NoError {
      TellsDigits(Hex(0, rest, NoError), 4);
      u := UnitOf(HexValue(rest[0]), HexValue(rest[1]), HexValue(rest[2]), HexValue(rest[3]));
      DigitIs(rest[0], HexValue(rest[0]));
      DigitIs(rest[1], HexValue(rest[1]));
      DigitIs(rest[2], HexValue(rest[2]));
      DigitIs(rest[3], HexValue(rest[3]));
    }
    forall v | |rest| >= 4 && SpellsUnit(rest[..4], v)
      ensures ParseHex4(rest, NoError) == Hex(v, rest[4..], NoError)
    {
      assert rest == rest[..4] + rest[4..];
      ReadsUnit(v, rest[..4], rest[4..], NoError);
    }
  }

  // ---------------------------------------------------------------- escape letters

  lemma LetterIs(letter: byte, c: byte)
    ensures StandsFor(letter, c) <==> c != 0 && Unescape(letter) == c
  {
    if c != 0 && Unescape(letter) == c {
      var i := if letter == 0x22 then 0 else if letter == 0x5C then 1 else if letter == 0x2F then 2
               else if letter == 0x62 then 3 else if letter == 0x66 then 4 else if letter == 0x6E then 5
               else if letter == 0x72 then 6 else 7;
      assert LETTERS[i] == letter && MEANINGS[i] == c;
    }
  }

  // ---------------------------------------------------------------- one part of a string

  lemma ReadsPiece(validate: bool, p: Piece, acc: bytes, post: bytes)
    requires ValidPiece(validate, p)
    ensures ScanString(validate, Scanned(acc, PieceText(p) + post, NoError))
            == ScanString(validate, Scanned(acc + PieceMeans(validate, p), post, NoError))
  {
    match p
    case Itself(text) =>
      if validate {
        ReadsChar(text, acc, post);
      } else {
        ReadsByte(text, acc, post);
      }
    case Letter(letter, c) => ReadsLetter(validate, letter, c, acc, post);
    case Unit(u, digits) => ReadsUnitPiece(validate, u, digits, acc, post);
    case Pair(high, hd, low, ld) => ReadsPairPiece(validate, high, hd, low, ld, acc, post);
  }

  lemma ReadsByte(text: bytes, acc: bytes, post: bytes)
    requires |text| == 1 && text[0] >= 0x20 && text[0] != QUOTE && text[0] != BACKSLASH
    ensures ScanString(false, Scanned(acc, text + post, NoError)) == ScanString(false, Scanned(acc + text, post, NoError))
  {
    TakeFront(text, post);
    assert text[1..] + post == post && [text[0]] == text;
  }

  lemma ReadsChar(text: bytes, acc: bytes, post: bytes)
    requires Utf8.IsChar(text) && text[0] >= 0x20 && text[0] != QUOTE && text[0] != BACKSLASH
    ensures ScanString(true, Scanned(acc, text + post, NoError)) == ScanString(true, Scanned(acc + text, post, NoError))
  {
    hide Utf8.ValidateOne, Utf8.DecodeOne;
    TakeFront(text, post);
    Utf8.DecodeChar(text, post);
    Utf8.ValidateIsDecode(text + post);
    assert (text + post)[..|text|] == text;
    assert (text + post)[..|text + post| - |post|] == text;
  }

  lemma ReadsLetter(validate: bool, letter: byte, c: byte, acc: bytes, post: bytes)
    requires StandsFor(letter, c)
    ensures ScanString(validate, Scanned(acc, [BACKSLASH, letter] + post, NoError))
            == ScanString(validate, Scanned(acc + [c], post, NoError))
  {
    hide Unescape, StandsFor;
    LetterIs(letter, c);
    BehindTwo(BACKSLASH, letter, post);
  }

  lemma BehindTwo(a: byte, b: byte, post: bytes)
    ensures var s := [a, b] + post; Peek(s) == a && Peek(Next(s)) == b && Next(Next(s)) == post
  {
    var s := [a, b] + post;
    assert s[1..] == [b] + post && ([b] + post)[1..] == post;
  }

  lemma UIsNoLetter()
    ensures Unescape(0x75) == 0
  {
  }

  lemma ReadsUnitPiece(validate: bool, u: nat, digits: bytes, acc: bytes, post: bytes)
    requires SpellsUnit(digits, u) && !IsHigh(u)
    ensures ScanString(validate, Scanned(acc, [BACKSLASH, 0x75] + digits + post, NoError))
            == ScanString(validate, Scanned(acc + Utf8.Encode(u), post, NoError))
  {
    hide Unescape, ParseHex4, Utf8.Encode;
    UIsNoLetter();
    Associate([BACKSLASH, 0x75], digits, post);
    BehindTwo(BACKSLASH, 0x75, digits + post);
    ReadsUnit(u, digits, post, NoError);
  }

  lemma ReadsPairPiece(validate: bool, high: nat, hd: bytes, low: nat, ld: bytes, acc: bytes, post: bytes)
    requires SpellsUnit(hd, high) && IsHigh(high) && SpellsUnit(ld, low) && IsLow(low)
    ensures ScanString(validate, Scanned(acc, [BACKSLASH, 0x75] + hd + ([BACKSLASH, 0x75] + ld) + post, NoError))
            == ScanString(validate, Scanned(acc + Utf8.Encode(PairNumber(high, low)), post, NoError))
  {
    hide Unescape, Utf8.Encode, ParseUnicode;
    UIsNoLetter();
    var second := [BACKSLASH, 0x75] + (ld + post);
    assert [BACKSLASH, 0x75] + hd + ([BACKSLASH, 0x75] + ld) + post == [BACKSLASH, 0x75] + (hd + second);
    BehindTwo(BACKSLASH, 0x75, hd + second);
    ReadsTwoUnits(high, hd, low, ld, post);
  }

  lemma ReadsTwoUnits(high: nat, hd: bytes, low: nat, ld: bytes, post: bytes)
    requires SpellsUnit(hd, high) && IsHigh(high) && SpellsUnit(ld, low) && IsLow(low)
    ensures ParseUnicode(hd + ([BACKSLASH, 0x75] + (ld + post)), NoError)
            == Unicode(true, PairNumber(high, low), post, NoError)
  {
    hide ParseHex4;
    ReadsUnit(high, hd, [BACKSLASH, 0x75] + (ld + post), NoError);
    ReadsUnit(low, ld, post, NoError);
    TakesBackslashU(ld + post);
  }

  lemma TakesBackslashU(tail: bytes)
    ensures TakeAll([BACKSLASH, 0x75] + tail, [BACKSLASH, 0x75]) == Matched(true, tail)
  {
    BehindTwo(BACKSLASH, 0x75, tail);
    assert [BACKSLASH, 0x75][1..] == [0x75] && [0x75][1..] == [];
  }

  /** A string in any spelling is read as what it says. */
  lemma {:induction false} ReadsPieces(validate: bool, ps: Pieces, acc: bytes, post: bytes)
    requires ValidPieces(validate, ps)
    ensures ScanString(validate, Scanned(acc, PiecesText(ps) + ([QUOTE] + post), NoError))
            == Scanned(acc + PiecesMean(validate, ps), post, NoError)
    decreases ps
  {
    hide ScanString, PieceText, PieceMeans, ValidPiece;
    if ps.NoPiece? {
      assert [] + ([QUOTE] + post) == [QUOTE] + post && acc + [] == acc;
      QuoteEnds(validate, acc, post);
    } else {
      var behind := PiecesText(ps.others) + ([QUOTE] + post);
      Associate(PieceText(ps.piece), PiecesText(ps.others), [QUOTE] + post);
      ReadsPiece(validate, ps.piece, acc, behind);
      ReadsPieces(validate, ps.others, acc + PieceMeans(validate, ps.piece), post);
      Associate(acc, PieceMeans(validate, ps.piece), PiecesMean(validate, ps.others));
    }
  }

  lemma QuoteEnds(validate: bool, acc: bytes, post: bytes)
    ensures ScanString(validate, Scanned(acc, [QUOTE] + post, NoError)) == Scanned(acc, post, NoError)
  {
    TakeFront([QUOTE], post);
    assert [QUOTE][1..] + post == post;
  }

  // ---------------------------------------------------------------- what was read without an error

  /** The part a string begins with, if it is read without an error and does not end there. */
  lemma TellsPiece(validate: bool, acc: bytes, rest: bytes) returns (p: Piece, post: bytes)
    requires ScanString(validate, Scanned(acc, rest, NoError)).error == NoError && Peek(rest) != QUOTE
    ensures ValidPiece(validate, p) && rest == PieceText(p) + post && |post| < |rest|
  {
    hide ScanString;
    var c := Peek(rest);
    assert rest != [] && c >= 0x20 by { NotAtEnd(validate, acc, rest); }
    if c == BACKSLASH {
      p, post := TellsEscape(validate, acc, rest);
    } else if validate {
      p, post := TellsChar(acc, rest);
    } else {
      p, post := Itself([c]), rest[1..];
      assert rest == [c] + rest[1..];
    }
  }

  lemma NotAtEnd(validate: bool, acc: bytes, rest: bytes)
    requires ScanString(validate, Scanned(acc, rest, NoError)).error == NoError
    ensures rest != [] && Peek(rest) >= 0x20
  {
  }

  lemma TellsChar(acc: bytes, rest: bytes) returns (p: Piece, post: bytes)
    requires ScanString(true, Scanned(acc, rest, NoError)).error == NoError
    requires rest != [] && rest[0] >= 0x20 && rest[0] != QUOTE && rest[0] != BACKSLASH
    ensures ValidPiece(true, p) && rest == PieceText(p) + post && |post| < |rest|
  {
    hide Utf8.IsChar, Utf8.ValidateOne, Utf8.DecodeOne;
    Utf8.ValidateIsDecode(rest);
    Utf8.AcceptedIsChar(rest);
    var n := Utf8.CharLength(rest[0]);
    p, post := Itself(rest[..n]), rest[n..];
    assert rest == rest[..n] + rest[n..];
  }

  lemma TellsEscape(validate: bool, acc: bytes, rest: bytes) returns (p: Piece, post: bytes)
    requires ScanString(validate, Scanned(acc, rest, NoError)).error == NoError && Peek(rest) == BACKSLASH
    ensures ValidPiece(validate, p) && rest == PieceText(p) + post && |post| < |rest|
  {
    var letter := Peek(Next(rest));
    EscapeIs(validate, acc, rest);
    hide ScanString, Unescape, ParseUnicode, StandsFor;
    if Unescape(letter) != 0 {
      LetterIs(letter, Unescape(letter));
      p, post := Letter(letter, Unescape(letter)), rest[2..];
      assert rest == [BACKSLASH, letter] + rest[2..];
    } else {
      p, post := TellsUnicode(rest[2..]);
      assert rest == [BACKSLASH, 0x75] + rest[2..];
      match p
      case Unit(_, digits) => Associate([BACKSLASH, 0x75], digits, post);
      case Pair(_, hd, _, ld) =>
        Associate([BACKSLASH, 0x75], hd, [BACKSLASH, 0x75] + ld);
        Associate([BACKSLASH, 0x75], hd + ([BACKSLASH, 0x75] + ld), post);
    }
  }

  lemma EscapeIs(validate: bool, acc: bytes, rest: bytes)
    requires ScanString(validate, Scanned(acc, rest, NoError)).error == NoError && Peek(rest) == BACKSLASH
    ensures var letter := Peek(Next(rest));
            && |rest| >= 2 && rest[1] == letter && Next(Next(rest)) == rest[2..]
            && (Unescape(letter) == 0 ==>
                  letter == 0x75 && ParseUnicode(rest[2..], NoError).ok && ParseUnicode(rest[2..], NoError).error == NoError)
  {
    hide ParseUnicode, Utf8.Encode, Utf8.ValidateOne;
  }

  /** A \\u escape read without an error: one unit or a pair, behind the letter. */
  lemma TellsUnicode(rest: bytes) returns (p: Piece, post: bytes)
    requires ParseUnicode(rest, NoError).ok && ParseUnicode(rest, NoError).error == NoError
    ensures ValidPiece(true, p) && ValidPiece(false, p) && |post| < |rest|
    ensures match p
            case Unit(_, digits) => rest == digits + post
            case Pair(_, hd, _, ld) => rest == hd + ([BACKSLASH, 0x75] + ld) + post
            case _ => false
  {
    hide ParseHex4, SpellsUnit, ParseUnicode, TakeAll;
    var h := ParseHex4(rest, NoError);
    UnitsAreRead(rest);
    var u := UnitIsExact(rest);
    SpelledHasFour(rest, u);
    assert rest == rest[..4] + rest[4..];
    if IsHigh(u) {
      BackslashUIsThere(rest[4..]);
      assert rest[4..][2..] == rest[6..];
      var low := UnitIsExact(rest[6..]);
      SpelledHasFour(rest[6..], low);
      p, post := Pair(u, rest[..4], low, rest[6..][..4]), rest[10..];
      InPair(rest);
    } else {
      p, post := Unit(u, rest[..4]), rest[4..];
    }
  }

  lemma InPair(rest: bytes)
    requires |rest| >= 10 && rest[4..][0] == BACKSLASH && rest[4..][1] == 0x75
    ensures rest == rest[..4] + ([BACKSLASH, 0x75] + rest[6..][..4]) + rest[10..]
  {
  }

  lemma SpelledHasFour(rest: bytes, u: nat)
    requires |rest| >= 4 && SpellsUnit(rest[..4], u)
    ensures u < 0x10000
  {
  }

  /** Once a bad digit was met, the error stays. */
  lemma UnitsAreRead(rest: bytes)
    requires ParseUnicode(rest, NoError).ok && ParseUnicode(rest, NoError).error == NoError
    ensures var h := ParseHex4(rest, NoError);
            && h.error == NoError
            && (0xD800 <= h.codepoint <= 0xDBFF ==>
                  var m := TakeAll(h.rest, [BACKSLASH, 0x75]);
                  m.ok && ParseHex4(m.rest, NoError).error == NoError
                  && IsLow(ParseHex4(m.rest, NoError).codepoint))
  {
    hide ParseHex4, TakeAll;
  }

  lemma BackslashUIsThere(rest: bytes)
    requires TakeAll(rest, [BACKSLASH, 0x75]).ok
    ensures |rest| >= 2 && rest[0] == BACKSLASH && rest[1] == 0x75 && TakeAll(rest, [BACKSLASH, 0x75]).rest == rest[2..]
  {
    TakeTwo(rest, BACKSLASH, 0x75);
  }

  lemma TakeTwo(rest: bytes, a: byte, b: byte)
    ensures TakeAll(rest, [a, b]) ==
              if Peek(rest) != a then Matched(false, Next(rest))
              else Matched(Peek(Next(rest)) == b, Next(Next(rest)))
  {
    assert [a, b][1..] == [b];
    TakeOne(Next(rest), b);
  }

  lemma TakeOne(rest: bytes, b: byte)
    ensures TakeAll(rest, [b]) == Matched(Peek(rest) == b, Next(rest))
  {
    assert [b][1..] == [];
  }

  /** Whatever is read as a string without an error is a string, and says what was read. */
  lemma {:induction false} TellsPieces(validate: bool, acc: bytes, rest: bytes) returns (ps: Pieces)
    requires ScanString(validate, Scanned(acc, rest, NoError)).error == NoError
    ensures ValidPieces(validate, ps)
    ensures rest == PiecesText(ps) + ([QUOTE] + ScanString(validate, Scanned(acc, rest, NoError)).rest)
    decreases |rest|
  {
    hide ScanString, ValidPiece, PieceText, PieceMeans;
    NotAtEnd(validate, acc, rest);
    if Peek(rest) == QUOTE {
      ps := NoPiece;
      QuoteEnds(validate, acc, rest[1..]);
      assert rest == [QUOTE] + rest[1..] && [] + rest == rest;
    } else {
      var p, post := TellsPiece(validate, acc, rest);
      ReadsPiece(validate, p, acc, post);
      var others := TellsPieces(validate, acc + PieceMeans(validate, p), post);
      ps := More(p, others);
      Associate(PieceText(p), PiecesText(others), [QUOTE] + ScanString(validate, Scanned(acc, rest, NoError)).rest);
    }
  }

  /** ParseStringToStream, after the opening quote, succeeds exactly on the strings of RFC 4627, and reads what they say. */
  lemma StringIsExact(validate: bool, rest: bytes)
    ensures ScanString(validate, Scanned([], rest, NoError)).error == NoError
            <==> exists ps, post :: ValidPieces(validate, ps) && rest == PiecesText(ps) + ([QUOTE] + post)
    ensures forall ps, post | ValidPieces(validate, ps) && rest == PiecesText(ps) + ([QUOTE] + post) ::
              ScanString(validate, Scanned([], rest, NoError)) == Scanned(PiecesMean(validate, ps), post, NoError)
  {
    hide ScanString, PiecesText, PiecesMean, ValidPieces;
    if ScanString(validate, Scanned([], rest, NoError)).error == NoError {
      var ps := TellsPieces(validate, [], rest);
    }
    forall ps, post | ValidPieces(validate, ps) && rest == PiecesText(ps) + ([QUOTE] + post)
      ensures ScanString(validate, Scanned([], rest, NoError)) == Scanned(PiecesMean(validate, ps), post, NoError)
    {
      ReadsPieces(validate, ps, [], post);
      assert [] + PiecesMean(validate, ps) == PiecesMean(validate, ps);
    }
  }
}
