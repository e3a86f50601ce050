/** What can be wrong with a text that is no JSON text: sound parts up to a place where nothing that is allowed there
    follows. How such texts are spelled, what they say before that place, and which error tells what is wrong
    (error/error.h, section 2 of RFC 4627). */
module Faults {
  import opened Streams
  import opened Events
  import opened Json
  import opened ReaderSpec
  import Utf8

  // ---------------------------------------------------------------- strings

  /** Behind its opening quotation mark a string has sound parts and then something that is none; or a \u with fewer than
      four hex digits, which does not end it: it goes on behind the byte that is no digit, and may go wrong again. */
  datatype TextFault =
    | Broken(pieces: Pieces, why: ErrorCode, tail: bytes)
    | BadDigit(pieces: Pieces, digits: bytes, bad: bytes, more: TextFault)
    | Sound(pieces: Pieces, tail: bytes)

  predicate AllHex(digits: bytes) {
    forall i | 0 <= i < |digits| :: IsHexDigit(digits[i])
  }

  predicate IsHexDigit(c: byte) {
    c in UPPER || c in LOWER
  }

  ghost predicate IsLetter(letter: byte) {
    exists c: byte :: StandsFor(letter, c)
  }

  /** Whether a text begins with an escape of this code unit. */
  predicate EscapesUnit(s: bytes, u: nat) {
    |s| >= 6 && s[0] == BACKSLASH && s[1] == 0x75 && SpellsUnit(s[2..6], u)
  }

  /** Whether it is one of a high surrogate and none of a low one follows. */
  ghost predicate LacksLow(s: bytes, high: nat) {
    EscapesUnit(s, high) && IsHigh(high) && !exists low: nat :: IsLow(low) && EscapesUnit(s[6..], low)
  }

  /** Whether this is what is wrong at the front of a text. */
  ghost predicate IsWrong(validate: bool, why: ErrorCode, s: bytes) {
    match why
    case StringMissQuotationMark => Peek(s) == 0
    case StringEscapeInvalid =>
      || 0 < Peek(s) < 0x20
      || (Peek(s) == BACKSLASH && Peek(s[1..]) != 0x75 && !IsLetter(Peek(s[1..])))
    case StringUnicodeSurrogateInvalid => exists high: nat :: LacksLow(s, high)
    case StringInvalidEncoding =>
      && validate && Peek(s) >= 0x20 && Peek(s) != QUOTE && Peek(s) != BACKSLASH
      && !exists n: nat :: n <= |s| && Utf8.IsChar(s[..n])
    case _ => false
  }

  ghost predicate ValidTextFault(validate: bool, f: TextFault) {
    ValidPieces(validate, f.pieces) &&
    match f
    case Broken(_, why, tail) => IsWrong(validate, why, tail)
    case BadDigit(_, digits, bad, more) =>
      && |digits| < 4 && AllHex(digits) && ValidTextFault(validate, more)
      && if bad == [] then TextFaultText(more) == [] else |bad| == 1 && !IsHexDigit(bad[0])
    case Sound(_, _) => true
  }

  /** From behind the opening quotation mark to the end of the text. */
  function TextFaultText(f: TextFault): bytes {
    PiecesText(f.pieces) +
    match f
    case Broken(_, _, tail) => tail
    case BadDigit(_, digits, bad, more) => [BACKSLASH, 0x75] + (digits + (bad + TextFaultText(more)))
    case Sound(_, tail) => [QUOTE] + tail
  }

  /** The last thing wrong with a string is the one that is told. */
  function TextFaultCode(f: TextFault): ErrorCode {
    match f
    case Broken(_, why, _) => why
    case BadDigit(_, _, _, more) =>
      if TextFaultCode(more) == NoError then StringUnicodeEscapeInvalidHex else TextFaultCode(more)
    case Sound(_, _) => NoError
  }

  // ---------------------------------------------------------------- numbers

  /** A number that is refused; one whose point or whose letter of an exponent has no digit behind it; or a minus sign
      that has none. */
  datatype NumberFault =
    | Refused(n: Numeral, tail: bytes)
    | NoFraction(n: Numeral, tail: bytes)
    | NoExponent(n: Numeral, letter: byte, sign: bytes, tail: bytes)
    | MinusAlone(tail: bytes)

  predicate ValidNumberFault(cf: Config, f: NumberFault) {
    match f
    case Refused(n, tail) => ValidNumeral(n) && !Accepted(cf.float, n) && Stops(n, tail)
    case NoFraction(n, tail) => ValidNumeral(n) && n.fraction == [] && n.power.NoPower? && !IsDigit(Peek(tail))
    case NoExponent(n, letter, sign, tail) =>
      && ValidNumeral(n) && n.power.NoPower? && (letter == 0x65 || letter == 0x45) && !IsDigit(Peek(tail))
      && (sign == [PLUS] || sign == [MINUS] || (sign == [] && Peek(tail) != PLUS && Peek(tail) != MINUS))
    case MinusAlone(tail) => !IsDigit(Peek(tail))
  }

  function NumberFaultText(f: NumberFault): bytes {
    match f
    case Refused(n, tail) => NumeralText(n) + tail
    case NoFraction(n, tail) => NumeralText(n) + ([DOT] + tail)
    case NoExponent(n, letter, sign, tail) => NumeralText(n) + ([letter] + (sign + tail))
    case MinusAlone(tail) => [MINUS] + tail
  }

  /** The first thing wrong with a number is the one that is told. */
  function NumberFaultCode(cf: Config, f: NumberFault): ErrorCode
    requires ValidNumberFault(cf, f)
  {
    if f.MinusAlone? then ValueInvalid
    else if !WholeAccepted(cf.float, f.n) then NumberTooBig
    else if f.NoFraction? || !FractionAccepted(f.n) then NumberMissFraction
    else if f.NoExponent? then NumberMissExponent
    else NumberTooBig
  }

  // ---------------------------------------------------------------- values

  /** A value that goes wrong: none begins here, or one of the three words is not spelled out, or its own parts are wrong. */
  datatype Fault =
    | NoValue(tail: bytes)
    | BadWord(tail: bytes)
    | BadNumber(number: NumberFault)
    | BadText(text: TextFault)
    | BadArray(gap: bytes, elements: ElementsFault)
    | BadObject(gap: bytes, members: MembersFault)

  datatype ElementsFault =
    | WrongElement(fault: Fault)
    | NoComma(value: Json, after: bytes, tail: bytes)
    | ElementThen(value: Json, after: bytes, next: bytes, more: ElementsFault)

  datatype MembersFault =
    | NoName(tail: bytes)
    | WrongName(text: TextFault)
    | NoColon(name: Pieces, colon: bytes, tail: bytes)
    | WrongValue(name: Pieces, colon: bytes, gap: bytes, fault: Fault)
    | NoCommaBehind(name: Pieces, colon: bytes, gap: bytes, value: Json, after: bytes, tail: bytes)
    | MemberThen(name: Pieces, colon: bytes, gap: bytes, value: Json, after: bytes, next: bytes, more: MembersFault)

  const WORDS: seq<bytes> :=
    [[0x6E, 0x75, 0x6C, 0x6C], [0x74, 0x72, 0x75, 0x65], [0x66, 0x61, 0x6C, 0x73, 0x65]]

  /** Whether a word begins here, but is not this one. */
  predicate Misspelled(tail: bytes, word: bytes)
    requires word != []
  {
    tail != [] && tail[0] == word[0] && !(word <= tail)
  }

  predicate StartsNothing(c: byte) {
    c !in {0x6E, 0x74, 0x66, QUOTE, LBRACKET, LCURLY, MINUS} && !IsDigit(c)
  }

  /** Whether what follows has no more whitespace in front. */
  predicate NoBlank(tail: bytes) {
    tail == [] || !IsBlank(tail[0])
  }

  ghost predicate ValidFault(cf: Config, f: Fault) {
    match f
    case NoValue(tail) => NoBlank(tail) && StartsNothing(Peek(tail))
    case BadWord(tail) => Misspelled(tail, WORDS[0]) || Misspelled(tail, WORDS[1]) || Misspelled(tail, WORDS[2])
    case BadNumber(number) => ValidNumberFault(cf, number)
    case BadText(text) => ValidTextFault(cf.validate, text) && TextFaultCode(text) != NoError
    case BadArray(gap, elements) =>
      AllBlank(gap) && ValidElementsFault(cf, elements) && Peek(ElementsFaultText(elements)) != RBRACKET
    case BadObject(gap, members) =>
      AllBlank(gap) && ValidMembersFault(cf, members) && Peek(MembersFaultText(members)) != RCURLY
  }

  ghost predicate ValidElementsFault(cf: Config, f: ElementsFault) {
    match f
    case WrongElement(fault) => ValidFault(cf, fault)
    case NoComma(value, after, tail) =>
      && Valid(cf, value) && AllBlank(after) && Ends(value, after + tail) && NoBlank(tail)
      && Peek(tail) != COMMA && Peek(tail) != RBRACKET
    case ElementThen(value, after, next, more) =>
      Valid(cf, value) && AllBlank(after) && AllBlank(next) && ValidElementsFault(cf, more)
  }

  ghost predicate ValidMembersFault(cf: Config, f: MembersFault) {
    match f
    case NoName(tail) => NoBlank(tail) && Peek(tail) != QUOTE
    case WrongName(text) => ValidTextFault(cf.validate, text) && TextFaultCode(text) != NoError
    case NoColon(name, colon, tail) =>
      ValidPieces(cf.validate, name) && AllBlank(colon) && NoBlank(tail) && Peek(tail) != COLON
    case WrongValue(name, colon, gap, fault) =>
      ValidPieces(cf.validate, name) && AllBlank(colon) && AllBlank(gap) && ValidFault(cf, fault)
    case NoCommaBehind(name, colon, gap, value, after, tail) =>
      && ValidPieces(cf.validate, name) && AllBlank(colon) && AllBlank(gap)
      && Valid(cf, value) && AllBlank(after) && Ends(value, after + tail) && NoBlank(tail)
      && Peek(tail) != COMMA && Peek(tail) != RCURLY
    case MemberThen(name, colon, gap, value, after, next, more) =>
      && ValidPieces(cf.validate, name) && AllBlank(colon) && AllBlank(gap)
      && Valid(cf, value) && AllBlank(after) && AllBlank(next) && ValidMembersFault(cf, more)
  }

  /** From where the value would begin to the end of the text. */
  function FaultText(f: Fault): bytes {
    match f
    case NoValue(tail) => tail
    case BadWord(tail) => tail
    case BadNumber(number) => NumberFaultText(number)
    case BadText(text) => [QUOTE] + TextFaultText(text)
    case BadArray(gap, elements) => [LBRACKET] + (gap + ElementsFaultText(elements))
    case BadObject(gap, members) => [LCURLY] + (gap + MembersFaultText(members))
  }

  function ElementsFaultText(f: ElementsFault): bytes {
    match f
    case WrongElement(fault) => FaultText(fault)
    case NoComma(value, after, tail) => Spell(value) + (after + tail)
    case ElementThen(value, after, next, more) => Spell(value) + (after + ([COMMA] + (next + ElementsFaultText(more))))
  }

  function MembersFaultText(f: MembersFault): bytes {
    match f
    case NoName(tail) => tail
    case WrongName(text) => [QUOTE] + TextFaultText(text)
    case NoColon(name, colon, tail) => StringText(name) + (colon + tail)
    case WrongValue(name, colon, gap, fault) => StringText(name) + (colon + ([COLON] + (gap + FaultText(fault))))
    case NoCommaBehind(name, colon, gap, value, after, tail) =>
      StringText(name) + (colon + ([COLON] + (gap + (Spell(value) + (after + tail)))))
    case MemberThen(name, colon, gap, value, after, next, more) =>
      StringText(name) + (colon + ([COLON] + (gap + (Spell(value) + (after + ([COMMA] + (next + MembersFaultText(more))))))))
  }

  /** The error that tells what is wrong. Where no value begins at the end or at a byte that has a place of its own, the
      table of the iterative parser has no move, and its error depends on whether a bracket is open. */
  ghost function FaultCode(cf: Config, f: Fault, iterative: bool, inside: bool): ErrorCode
    requires ValidFault(cf, f)
  {
    match f
    case NoValue(tail) =>
      if iterative && Peek(tail) in {0, RBRACKET, RCURLY, COMMA, COLON} then
        if inside then UnspecificSyntaxError else DocumentEmpty
      else ValueInvalid
    case BadWord(_) => ValueInvalid
    case BadNumber(number) => NumberFaultCode(cf, number)
    case BadText(text) => TextFaultCode(text)
    case BadArray(_, elements) => ElementsFaultCode(cf, elements, iterative)
    case BadObject(_, members) => MembersFaultCode(cf, members, iterative)
  }

  ghost function ElementsFaultCode(cf: Config, f: ElementsFault, iterative: bool): ErrorCode
    requires ValidElementsFault(cf, f)
  {
    match f
    case WrongElement(fault) => FaultCode(cf, fault, iterative, true)
    case NoComma(_, _, _) => ArrayMissCommaOrSquareBracket
    case ElementThen(_, _, _, more) => ElementsFaultCode(cf, more, iterative)
  }

  ghost function MembersFaultCode(cf: Config, f: MembersFault, iterative: bool): ErrorCode
    requires ValidMembersFault(cf, f)
  {
    match f
    case NoName(_) => ObjectMissName
    case WrongName(text) => TextFaultCode(text)
    case NoColon(_, _, _) => ObjectMissColon
    case WrongValue(_, _, _, fault) => FaultCode(cf, fault, iterative, true)
    case NoCommaBehind(_, _, _, _, _, _) => ObjectMissCommaOrCurlyBracket
    case MemberThen(_, _, _, _, _, _, more) => MembersFaultCode(cf, more, iterative)
  }

  /** What the handler has been told by then. */
  ghost function FaultMeans(cf: Config, f: Fault): seq<Event>
    requires ValidFault(cf, f)
  {
    match f
    case BadArray(_, elements) => [StartArray] + ElementsFaultMeans(cf, elements)
    case BadObject(_, members) => [StartObject] + MembersFaultMeans(cf, members)
    case _ => []
  }

  ghost function ElementsFaultMeans(cf: Config, f: ElementsFault): seq<Event>
    requires ValidElementsFault(cf, f)
  {
    match f
    case WrongElement(fault) => FaultMeans(cf, fault)
    case NoComma(value, _, _) => Means(cf, value)
    case ElementThen(value, _, _, more) => Means(cf, value) + ElementsFaultMeans(cf, more)
  }

  ghost function MembersFaultMeans(cf: Config, f: MembersFault): seq<Event>
    requires ValidMembersFault(cf, f)
  {
    match f
    case NoName(_) => []
    case WrongName(_) => []
    case NoColon(name, _, _) => [Key(PiecesMean(cf.validate, name))]
    case WrongValue(name, _, _, fault) => [Key(PiecesMean(cf.validate, name))] + FaultMeans(cf, fault)
    case NoCommaBehind(name, _, _, value, _, _) => [Key(PiecesMean(cf.validate, name))] + Means(cf, value)
    case MemberThen(name, _, _, value, _, _, more) =>
      [Key(PiecesMean(cf.validate, name))] + (Means(cf, value) + MembersFaultMeans(cf, more))
  }
}
