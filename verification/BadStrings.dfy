/** ParseStringToStream reports exactly what is wrong with a string (reader.h). */
module BadStrings {
  import opened Streams
  import opened ReaderSpec
  import opened Json
  import opened ReadsStrings
  import opened Faults
  import Utf8

  // ---------------------------------------------------------------- an error is kept until there is another

  function Kept(now: ErrorCode, before: ErrorCode): ErrorCode {
    if now == NoError then before else now
  }

  lemma {:induction false} HexKeeps(h: Hex, error: ErrorCode, n: nat)
    requires n <= 4 && h.codepoint < HexBound(n) && h.error == NoError
    ensures var r := ParseHex(h, n);
            ParseHex(h.(error := error), n) == r.(error := Kept(r.error, error))
    decreases n
  {
    hide HexValue, Peek, Next;
    if n > 0 {
      var d := HexValue(Peek(h.rest));
      if d >= 0 {
        HexKeeps(Hex(h.codepoint * 0x10 + d, Next(h.rest), NoError), error, n - 1);
      }
    }
  }

  lemma Hex4Keeps(rest: bytes, error: ErrorCode)
    ensures var r := ParseHex4(rest, NoError); ParseHex4(rest, error) == r.(error := Kept(r.error, error))
  {
    hide ParseHex;
    HexKeeps(Hex(0, rest, NoError), error, 4);
  }

  lemma UnicodeKeeps(rest: bytes, error: ErrorCode)
    ensures var r := ParseUnicode(rest, NoError); ParseUnicode(rest, error) == r.(error := Kept(r.error, error))
  {
    hide ParseHex4, TakeAll;
    Hex4Keeps(rest, error);
    var h := ParseHex4(rest, NoError);
    var m := TakeAll(h.rest, [BACKSLASH, 0x75]);
    if 0xD800 <= h.codepoint <= 0xDBFF && m.ok {
      Hex4Keeps(m.rest, error);
      Hex4Keeps(m.rest, h.error);
      Hex4Keeps(m.rest, Kept(h.error, error));
    }
  }

  lemma {:induction false} ScanKeeps(validate: bool, acc: bytes, rest: bytes, error: ErrorCode)
    ensures var r := ScanString(validate, Scanned(acc, rest, NoError));
            ScanString(validate, Scanned(acc, rest, error)).error == Kept(r.error, error)
    decreases |rest|
  {
    var c := Peek(rest);
    hide Unescape, ParseUnicode, Utf8.ValidateOne, Utf8.Encode;
    if c == BACKSLASH {
      var e := Peek(Next(rest));
      var rest' := Next(Next(rest));
      if Unescape(e) != 0 {
        ScanKeeps(validate, acc + [Unescape(e)], rest', error);
      } else if e == 0x75 {
        UnicodeKeeps(rest', error);
        var u := ParseUnicode(rest', NoError);
        if u.ok {
          ScanKeeps(validate, acc + Utf8.Encode(u.codepoint), u.rest, Kept(u.error, error));
          ScanKeeps(validate, acc + Utf8.Encode(u.codepoint), u.rest, u.error);
        }
      }
    } else if c >= 0x20 && c != QUOTE {
      if validate {
        Utf8.ValidateAdvances(rest);
        var v := Utf8.ValidateOne(rest);
        if v.ok {
          ScanKeeps(validate, acc + v.copied, v.rest, error);
        }
      } else {
        ScanKeeps(validate, acc + [c], Next(rest), error);
      }
    }
  }

  // ---------------------------------------------------------------- what is wrong is reported

  lemma {:induction false} ReadsFront(validate: bool, ps: Pieces, acc: bytes, tail: bytes)
    requires ValidPieces(validate, ps)
    ensures ScanString(validate, Scanned(acc, PiecesText(ps) + tail, NoError))
            == ScanString(validate, Scanned(acc + PiecesMean(validate, ps), tail, NoError))
    decreases ps
  {
    hide ScanString, PieceText, PieceMeans, ValidPiece;
    if ps.NoPiece? {
      assert [] + tail == tail && acc + [] == acc;
    } else {
      Associate(PieceText(ps.piece), PiecesText(ps.others), tail);
      ReadsPiece(validate, ps.piece, acc, PiecesText(ps.others) + tail);
      ReadsFront(validate, ps.others, acc + PieceMeans(validate, ps.piece), tail);
      Associate(acc, PieceMeans(validate, ps.piece), PiecesMean(validate, ps.others));
    }
  }

  lemma LettersAre(e: byte)
    ensures IsLetter(e) <==> Unescape(e) != 0
    ensures !IsLetter(0x75) && !IsLetter(0)
  {
    forall letter: byte, c: byte ensures StandsFor(letter, c) <==> c != 0 && Unescape(letter) == c {
      LetterIs(letter, c);
    }
    if Unescape(e) != 0 {
      assert StandsFor(e, Unescape(e));
    }
  }

  lemma BadEscapeFails(validate: bool, acc: bytes, s: bytes)
    requires Peek(s) == BACKSLASH && Peek(s[1..]) != 0x75 && !IsLetter(Peek(s[1..]))
    ensures ScanString(validate, Scanned(acc, s, NoError)).error == StringEscapeInvalid
  {
    hide IsLetter, Unescape, ParseUnicode;
    LettersAre(Peek(s[1..]));
  }

  lemma BadEncodingFails(acc: bytes, s: bytes)
    requires IsWrong(true, StringInvalidEncoding, s)
    ensures ScanString(true, Scanned(acc, s, NoError)).error == StringInvalidEncoding
  {
    hide Utf8.ValidateOne, Utf8.DecodeOne, Utf8.IsChar;
    Utf8.ValidateIsDecode(s);
    if Utf8.DecodeOne(s).ok {
      Utf8.AcceptedIsChar(s);
      assert false;
    }
  }

  lemma PairFails(validate: bool, acc: bytes, s: bytes, high: nat)
    requires LacksLow(s, high)
    ensures ScanString(validate, Scanned(acc, s, NoError)).error == StringUnicodeSurrogateInvalid
  {
    hide Unescape, ParseUnicode, SpellsUnit;
    UIsNoLetter();
    assert s == [BACKSLASH, 0x75] + s[2..] && s[2..] == s[2..6] + s[6..];
    BehindTwo(BACKSLASH, 0x75, s[2..]);
    SecondIsNone(s[2..6], high, s[6..]);
  }

  lemma SecondIsNone(digits: bytes, high: nat, tail: bytes)
    requires SpellsUnit(digits, high) && IsHigh(high) && !exists low: nat :: IsLow(low) && EscapesUnit(tail, low)
    ensures ParseUnicode(digits + tail, NoError).error == StringUnicodeSurrogateInvalid
    ensures !ParseUnicode(digits + tail, NoError).ok
  {
    hide ParseHex4, SpellsUnit, TakeAll;
    ReadsUnit(high, digits, tail, NoError);
    var m := TakeAll(tail, [BACKSLASH, 0x75]);
    if m.ok {
      BackslashUIsThere(tail);
      var low := UnitIsExact(tail[2..]);
      var h := ParseHex4(tail[2..], NoError);
      if h.error == NoError {
        assert tail[2..][..4] == tail[2..6];
        assert IsLow(low) ==> EscapesUnit(tail, low);
      } else {
        BadIsZero(tail[2..]);
      }
    }
  }

  lemma {:induction false} BadHexIsZero(h: Hex, n: nat)
    requires n <= 4 && h.codepoint < HexBound(n) && h.error == NoError && ParseHex(h, n).error != NoError
    ensures ParseHex(h, n).codepoint == 0 && ParseHex(h, n).error == StringUnicodeEscapeInvalidHex
    decreases n
  {
    if n > 0 {
      var d := HexValue(Peek(h.rest));
      if d >= 0 {
        BadHexIsZero(Hex(h.codepoint * 0x10 + d, Next(h.rest), NoError), n - 1);
      }
    }
  }

  lemma BadIsZero(rest: bytes)
    requires ParseHex4(rest, NoError).error != NoError
    ensures ParseHex4(rest, NoError).codepoint == 0 && ParseHex4(rest, NoError).error == StringUnicodeEscapeInvalidHex
  {
    BadHexIsZero(Hex(0, rest, NoError), 4);
  }

  /** What is wrong at the front is what is reported. */
  lemma WrongFails(validate: bool, why: ErrorCode, acc: bytes, s: bytes)
    requires IsWrong(validate, why, s)
    ensures ScanString(validate, Scanned(acc, s, NoError)).error == why
  {
    hide ParseUnicode, Unescape, Utf8.ValidateOne, IsLetter, LacksLow;
    match why
    case StringMissQuotationMark =>
    case StringEscapeInvalid =>
      if Peek(s) == BACKSLASH {
        BadEscapeFails(validate, acc, s);
      }
    case StringUnicodeSurrogateInvalid =>
      var high: nat :| LacksLow(s, high);
      PairFails(validate, acc, s, high);
    case StringInvalidEncoding => BadEncodingFails(acc, s);
  }

  lemma HexDigitIs(c: byte)
    ensures IsHexDigit(c) <==> HexValue(c) >= 0
  {
    if IsHexDigit(c) {
      var d :| 0 <= d < 0x10 && (UPPER[d] == c || LOWER[d] == c);
      DigitIs(c, d);
    } else if HexValue(c) >= 0 {
      DigitIs(c, HexValue(c));
    }
  }

  /** Hex digits that end too early. */
  lemma {:induction false} FewDigits(h: Hex, n: nat, digits: bytes, bad: bytes, tail: bytes)
    requires n <= 4 && h.codepoint < HexBound(n) && |digits| < n && AllHex(digits) && h.rest == digits + (bad + tail)
    requires if bad == [] then tail == [] else |bad| == 1 && !IsHexDigit(bad[0])
    ensures ParseHex(h, n) == Hex(0, tail, StringUnicodeEscapeInvalidHex)
    decreases n
  {
    hide HexValue, IsHexDigit;
    if digits == [] {
      assert h.rest == bad + tail;
      assert !IsHexDigit(0) by { NulIsNoDigit(); }
      HexDigitIs(Peek(h.rest));
      if bad != [] {
        TakeFront(bad, tail);
        assert bad[1..] + tail == tail;
      }
    } else {
      HexDigitIs(digits[0]);
      TakeFront(digits, bad + tail);
      var d := HexValue(digits[0]);
      FewDigits(Hex(h.codepoint * 0x10 + d, digits[1..] + (bad + tail), h.error), n - 1, digits[1..], bad, tail);
    }
  }

  lemma NulIsNoDigit()
    ensures !IsHexDigit(0)
  {
  }

  lemma BadDigitGoesOn(validate: bool, acc: bytes, digits: bytes, bad: bytes, tail: bytes)
    requires |digits| < 4 && AllHex(digits) && if bad == [] then tail == [] else |bad| == 1 && !IsHexDigit(bad[0])
    ensures ScanString(validate, Scanned(acc, [BACKSLASH, 0x75] + (digits + (bad + tail)), NoError))
            == ScanString(validate, Scanned(acc + Utf8.Encode(0), tail, StringUnicodeEscapeInvalidHex))
  {
    hide Unescape, ParseHex, IsHexDigit, AllHex;
    UIsNoLetter();
    var rest := digits + (bad + tail);
    BehindTwo(BACKSLASH, 0x75, rest);
    FewDigits(Hex(0, rest, NoError), 4, digits, bad, tail);
  }

  /** Whatever is wrong with a string, the error says so. */
  lemma {:induction false} TextFails(validate: bool, f: TextFault, acc: bytes)
    requires ValidTextFault(validate, f)
    ensures ScanString(validate, Scanned(acc, TextFaultText(f), NoError)).error == TextFaultCode(f)
    decreases f
  {
    hide ScanString, PiecesText, PiecesMean, ValidPieces, IsWrong, AllHex, IsHexDigit;
    var acc' := acc + PiecesMean(validate, f.pieces);
    match f
    case Broken(pieces, why, tail) =>
      ReadsFront(validate, pieces, acc, tail);
      WrongFails(validate, why, acc', tail);
    case BadDigit(pieces, digits, bad, more) =>
      var tail := TextFaultText(more);
      ReadsFront(validate, pieces, acc, [BACKSLASH, 0x75] + (digits + (bad + tail)));
      BadDigitGoesOn(validate, acc', digits, bad, tail);
      ScanKeeps(validate, acc' + Utf8.Encode(0), tail, StringUnicodeEscapeInvalidHex);
      TextFails(validate, more, acc' + Utf8.Encode(0));
    case Sound(pieces, tail) => ReadsPieces(validate, pieces, acc, tail);
  }

  // ---------------------------------------------------------------- and what is reported is wrong

  function Before(p: Piece, f: TextFault): (r: TextFault)
    ensures r.pieces == More(p, f.pieces)
  {
    match f
    case Broken(pieces, why, tail) => Broken(More(p, pieces), why, tail)
    case BadDigit(pieces, digits, bad, more) => BadDigit(More(p, pieces), digits, bad, more)
    case Sound(pieces, tail) => Sound(More(p, pieces), tail)
  }

  lemma BeforeIs(validate: bool, p: Piece, f: TextFault)
    requires ValidPiece(validate, p) && ValidTextFault(validate, f)
    ensures ValidTextFault(validate, Before(p, f)) && TextFaultCode(Before(p, f)) == TextFaultCode(f)
    ensures TextFaultText(Before(p, f)) == PieceText(p) + TextFaultText(f)
  {
    hide ValidPiece, PieceText, IsWrong, AllHex, IsHexDigit;
    var tail := match f
                case Broken(_, _, tail) => tail
                case BadDigit(_, digits, bad, more) => [BACKSLASH, 0x75] + (digits + (bad + TextFaultText(more)))
                case Sound(_, tail) => [QUOTE] + tail;
    Associate(PieceText(p), PiecesText(f.pieces), tail);
  }

  ghost predicate HasPiece(validate: bool, s: bytes) {
    exists p, post :: IsFront(validate, s, p, post)
  }

  predicate IsFront(validate: bool, s: bytes, p: Piece, post: bytes) {
    ValidPiece(validate, p) && s == PieceText(p) + post
  }

  ghost predicate HasWrong(validate: bool, s: bytes) {
    exists why :: IsWrong(validate, why, s)
  }

  /** A \u without its four hex digits. */
  ghost predicate LacksDigits(s: bytes) {
    Peek(s) == BACKSLASH && Peek(s[1..]) == 0x75 && forall u: nat :: !EscapesUnit(s, u)
  }

  /** What a text can begin with. */
  lemma EveryFront(validate: bool, s: bytes)
    ensures HasPiece(validate, s) || Peek(s) == QUOTE || HasWrong(validate, s) || LacksDigits(s)
  {
    hide EscapesUnit, HasPiece, HasWrong, ValidPiece, PieceText, Utf8.IsChar, IsLetter;
    var c := Peek(s);
    if c == 0 || 0 < c < 0x20 {
      NoControl(validate, s);
    } else if c == BACKSLASH {
      var e := Peek(s[1..]);
      if IsLetter(e) {
        LetterFront(validate, s);
      } else if e == 0x75 {
        if u: nat :| EscapesUnit(s, u) {
          UnicodeFront(validate, s, u);
        }
      } else {
        BadEscapeFront(validate, s);
      }
    } else if c != QUOTE {
      PlainFront(validate, s);
    }
  }

  lemma NoControl(validate: bool, s: bytes)
    requires Peek(s) < 0x20
    ensures HasWrong(validate, s)
  {
    assert IsWrong(validate, if Peek(s) == 0 then StringMissQuotationMark else StringEscapeInvalid, s);
  }

  lemma LetterFront(validate: bool, s: bytes)
    requires Peek(s) == BACKSLASH && IsLetter(Peek(s[1..]))
    ensures HasPiece(validate, s)
  {
    hide StandsFor;
    LettersAre(0);
    var c: byte :| StandsFor(Peek(s[1..]), c);
    assert s == [BACKSLASH, s[1]] + s[2..];
    assert IsFront(validate, s, Letter(s[1], c), s[2..]);
  }

  lemma BadEscapeFront(validate: bool, s: bytes)
    requires Peek(s) == BACKSLASH && Peek(s[1..]) != 0x75 && !IsLetter(Peek(s[1..]))
    ensures HasWrong(validate, s)
  {
    hide IsLetter;
    assert IsWrong(validate, StringEscapeInvalid, s);
  }

  lemma UnicodeFront(validate: bool, s: bytes, u: nat)
    requires EscapesUnit(s, u)
    ensures HasPiece(validate, s) || HasWrong(validate, s)
  {
    hide SpellsUnit;
    if !IsHigh(u) {
      assert s == [BACKSLASH, 0x75] + s[2..6] + s[6..];
      assert IsFront(validate, s, Unit(u, s[2..6]), s[6..]);
    } else if low: nat :| IsLow(low) && EscapesUnit(s[6..], low) {
      var t := s[6..];
      assert s == [BACKSLASH, 0x75] + s[2..6] + ([BACKSLASH, 0x75] + t[2..6]) + t[6..];
      assert IsFront(validate, s, Pair(u, s[2..6], low, t[2..6]), t[6..]);
    } else {
      assert LacksLow(s, u);
      assert IsWrong(validate, StringUnicodeSurrogateInvalid, s);
    }
  }

  lemma PlainFront(validate: bool, s: bytes)
    requires Peek(s) >= 0x20 && Peek(s) != QUOTE && Peek(s) != BACKSLASH
    ensures HasPiece(validate, s) || HasWrong(validate, s)
  {
    if !validate {
      assert s == [s[0]] + s[1..];
      assert IsFront(false, s, Itself([s[0]]), s[1..]);
    } else if n: nat :| n <= |s| && Utf8.IsChar(s[..n]) {
      assert s == s[..n] + s[n..];
      assert IsFront(true, s, Itself(s[..n]), s[n..]);
    } else {
      assert IsWrong(true, StringInvalidEncoding, s);
    }
  }

  /** The digits of a text that has fewer than `n` in front, and the byte that is none. */
  lemma {:induction false} DigitsInFront(s: bytes, n: nat) returns (digits: bytes, bad: bytes, tail: bytes)
    requires |s| < n || !AllHex(s[..n])
    ensures |digits| < n && AllHex(digits) && s == digits + (bad + tail) && |tail| <= |s|
    ensures if bad == [] then tail == [] else |bad| == 1 && !IsHexDigit(bad[0])
    decreases n
  {
    hide IsHexDigit;
    if s == [] {
      digits, bad, tail := [], [], [];
      assert n > 0;
    } else if !IsHexDigit(s[0]) {
      digits, bad, tail := [], [s[0]], s[1..];
      assert s == [s[0]] + s[1..] && [] + s == s;
      assert n > 0;
    } else {
      assert |s| >= n && n > 0 ==> s[..n] == [s[0]] + s[1..][..n - 1];
      var digits';
      digits', bad, tail := DigitsInFront(s[1..], n - 1);
      digits := [s[0]] + digits';
      assert s == [s[0]] + s[1..];
      Associate([s[0]], digits', bad + tail);
    }
  }

  lemma FourSpell(s: bytes)
    requires |s| >= 6 && s[0] == BACKSLASH && s[1] == 0x75 && AllHex(s[2..6])
    ensures exists u: nat :: EscapesUnit(s, u)
  {
    hide IsHexDigit, HexValue, SpellsDigit;
    var d := s[2..6];
    HexDigitIs(d[0]);
    HexDigitIs(d[1]);
    HexDigitIs(d[2]);
    HexDigitIs(d[3]);
    var u := UnitOf(HexValue(d[0]), HexValue(d[1]), HexValue(d[2]), HexValue(d[3]));
    DigitIs(d[0], HexValue(d[0]));
    DigitIs(d[1], HexValue(d[1]));
    DigitIs(d[2], HexValue(d[2]));
    DigitIs(d[3], HexValue(d[3]));
    assert EscapesUnit(s, u);
  }

  lemma DigitsOf(s: bytes) returns (digits: bytes, bad: bytes, tail: bytes)
    requires LacksDigits(s)
    ensures |digits| < 4 && AllHex(digits) && s == [BACKSLASH, 0x75] + (digits + (bad + tail)) && |tail| < |s|
    ensures if bad == [] then tail == [] else |bad| == 1 && !IsHexDigit(bad[0])
  {
    hide IsHexDigit, AllHex, EscapesUnit;
    var rest := s[2..];
    if |rest| >= 4 && AllHex(rest[..4]) {
      assert rest[..4] == s[2..6];
      FourSpell(s);
    }
    digits, bad, tail := DigitsInFront(rest, 4);
    assert s == [BACKSLASH, 0x75] + rest;
  }

  lemma SoundIs(validate: bool, s: bytes)
    requires Peek(s) == QUOTE
    ensures ValidTextFault(validate, Sound(NoPiece, Next(s))) && TextFaultText(Sound(NoPiece, Next(s))) == s
  {
    assert s == [QUOTE] + s[1..] && [] + s == s;
  }

  lemma BrokenIs(validate: bool, why: ErrorCode, s: bytes)
    requires IsWrong(validate, why, s)
    ensures ValidTextFault(validate, Broken(NoPiece, why, s)) && TextFaultText(Broken(NoPiece, why, s)) == s
  {
    hide IsWrong;
    assert [] + s == s;
  }

  lemma BadDigitIs(validate: bool, digits: bytes, bad: bytes, more: TextFault)
    requires ValidTextFault(validate, more) && |digits| < 4 && AllHex(digits)
    requires if bad == [] then TextFaultText(more) == [] else |bad| == 1 && !IsHexDigit(bad[0])
    ensures var f := BadDigit(NoPiece, digits, bad, more);
            && ValidTextFault(validate, f)
            && TextFaultText(f) == [BACKSLASH, 0x75] + (digits + (bad + TextFaultText(more)))
  {
    hide AllHex, IsHexDigit;
    var text := [BACKSLASH, 0x75] + (digits + (bad + TextFaultText(more)));
    assert [] + text == text;
  }

  /** Every text that follows an opening quotation mark is a string, sound or not. */
  lemma {:induction false} EveryText(validate: bool, s: bytes) returns (f: TextFault)
    ensures ValidTextFault(validate, f) && TextFaultText(f) == s
    decreases |s|
  {
    hide *;
    EveryFront(validate, s);
    if HasPiece(validate, s) {
      var p, post := PieceOf(validate, s);
      var more := EveryText(validate, post);
      BeforeIs(validate, p, more);
      f := Before(p, more);
    } else if Peek(s) == QUOTE {
      f := Sound(NoPiece, Next(s));
      SoundIs(validate, s);
    } else if HasWrong(validate, s) {
      var why := WhyOf(validate, s);
      f := Broken(NoPiece, why, s);
      BrokenIs(validate, why, s);
    } else {
      var digits, bad, tail := DigitsOf(s);
      var more := EveryText(validate, tail);
      f := BadDigit(NoPiece, digits, bad, more);
      BadDigitIs(validate, digits, bad, more);
    }
  }

  lemma PieceOf(validate: bool, s: bytes) returns (p: Piece, post: bytes)
    requires HasPiece(validate, s)
    ensures ValidPiece(validate, p) && s == PieceText(p) + post && |post| < |s|
  {
    hide ValidPiece, PieceText;
    p, post :| IsFront(validate, s, p, post);
    PieceHasText(validate, p);
  }

  lemma PieceHasText(validate: bool, p: Piece)
    requires ValidPiece(validate, p)
    ensures PieceText(p) != []
  {
  }

  lemma WhyOf(validate: bool, s: bytes) returns (why: ErrorCode)
    requires HasWrong(validate, s)
    ensures IsWrong(validate, why, s)
  {
    why :| IsWrong(validate, why, s);
  }

  /** ParseStringToStream, after the opening quote, reports an error exactly if that is what is wrong with the text. */
  lemma StringErrorIsExact(validate: bool, rest: bytes, error: ErrorCode)
    ensures ScanString(validate, Scanned([], rest, NoError)).error == error
            <==> exists f :: ValidTextFault(validate, f) && TextFaultText(f) == rest && TextFaultCode(f) == error
  {
    hide *;
    var f0 := EveryText(validate, rest);
    TextFails(validate, f0, []);
    forall f | ValidTextFault(validate, f) && TextFaultText(f) == rest
      ensures ScanString(validate, Scanned([], rest, NoError)).error == TextFaultCode(f)
    {
      TextFails(validate, f, []);
    }
  }
}
