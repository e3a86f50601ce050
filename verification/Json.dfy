/** JSON texts as section 2 of RFC 4627 makes them up: their parts, how these are spelled, and what they say to a handler.
    Nothing here reads a text; ReadsJson proves that the readers accept these texts and no others. */
module Json {
  import opened Streams
  import opened Events
  import opened Numbers
  import Utf8

  /** The whitespace of section 2. */
  predicate IsBlank(c: byte) {
    c in {0x20, 0x09, 0x0A, 0x0D}
  }

  predicate AllBlank(s: bytes) {
    forall i | 0 <= i < |s| :: IsBlank(s[i])
  }

  // ---------------------------------------------------------------- strings, section 2.5

  const UPPER: bytes := [0x30, 0x31, 0x32, 0x33, 0x34, 0x35, 0x36, 0x37, 0x38, 0x39, 0x41, 0x42, 0x43, 0x44, 0x45, 0x46]
  const LOWER: bytes := [0x30, 0x31, 0x32, 0x33, 0x34, 0x35, 0x36, 0x37, 0x38, 0x39, 0x61, 0x62, 0x63, 0x64, 0x65, 0x66]

  /** Whether a byte is found at the place `d` among the digits "0123456789ABCDEF" or "0123456789abcdef". */
  predicate SpellsDigit(c: byte, d: nat) {
    d < 0x10 && (c == UPPER[d] || c == LOWER[d])
  }

  /** The four hex digits of a code unit, in either case. */
  predicate SpellsUnit(digits: bytes, u: nat) {
    && |digits| == 4 && u < 0x10000
    && SpellsDigit(digits[0], u / 0x1000) && SpellsDigit(digits[1], u / 0x100 % 0x10)
    && SpellsDigit(digits[2], u / 0x10 % 0x10) && SpellsDigit(digits[3], u % 0x10)
  }

  const LETTERS: bytes := [0x22, 0x5C, 0x2F, 0x62, 0x66, 0x6E, 0x72, 0x74]    // " \ / b f n r t
  const MEANINGS: bytes := [0x22, 0x5C, 0x2F, 0x08, 0x0C, 0x0A, 0x0D, 0x09]

  /** What a letter behind a backslash stands for. */
  predicate StandsFor(letter: byte, c: byte) {
    exists i | 0 <= i < |LETTERS| :: LETTERS[i] == letter && MEANINGS[i] == c
  }

  predicate IsHigh(u: nat) {
    0xD800 <= u <= 0xDBFF
  }

  predicate IsLow(u: nat) {
    0xDC00 <= u <= 0xDFFF
  }

  /** A part of a string: bytes that stand for themselves, an escape letter, a code unit that does not call for a second
      one, or a surrogate pair. */
  datatype Piece =
    | Itself(text: bytes)
    | Letter(letter: byte, c: byte)
    | Unit(u: nat, digits: bytes)
    | Pair(high: nat, highDigits: bytes, low: nat, lowDigits: bytes)

  /** With `validate`, what stands for itself is one character of UTF-8, otherwise one byte. */
  predicate ValidPiece(validate: bool, p: Piece) {
    match p
    case Itself(text) =>
      && (if validate then Utf8.IsChar(text) else |text| == 1)
      && text[0] >= 0x20 && text[0] != QUOTE && text[0] != BACKSLASH
    case Letter(letter, c) => StandsFor(letter, c)
    case Unit(u, digits) => SpellsUnit(digits, u) && !IsHigh(u)
    case Pair(high, highDigits, low, lowDigits) =>
      SpellsUnit(highDigits, high) && IsHigh(high) && SpellsUnit(lowDigits, low) && IsLow(low)
  }

  function PieceText(p: Piece): bytes {
    match p
    case Itself(text) => text
    case Letter(letter, _) => [BACKSLASH, letter]
    case Unit(_, digits) => [BACKSLASH, 0x75] + digits
    case Pair(_, highDigits, _, lowDigits) => [BACKSLASH, 0x75] + highDigits + ([BACKSLASH, 0x75] + lowDigits)
  }

  /** The number of the character that a pair of surrogates stands for. */
  function PairNumber(high: nat, low: nat): (n: nat)
    requires IsHigh(high) && IsLow(low)
    ensures n <= 0x10FFFF
  {
    0x10000 + (high - 0xD800) * 0x400 + (low - 0xDC00)
  }

  /** What a part adds to the string. */
  function PieceMeans(validate: bool, p: Piece): bytes
    requires ValidPiece(validate, p)
  {
    match p
    case Itself(text) => text
    case Letter(_, c) => [c]
    case Unit(u, _) => Utf8.Encode(u)
    case Pair(high, _, low, _) => Utf8.Encode(PairNumber(high, low))
  }

  datatype Pieces = NoPiece | More(piece: Piece, others: Pieces)

  predicate ValidPieces(validate: bool, ps: Pieces) {
    ps.More? ==> ValidPiece(validate, ps.piece) && ValidPieces(validate, ps.others)
  }

  function PiecesText(ps: Pieces): bytes {
    if ps.NoPiece? then [] else PieceText(ps.piece) + PiecesText(ps.others)
  }

  function PiecesMean(validate: bool, ps: Pieces): bytes
    requires ValidPieces(validate, ps)
  {
    if ps.NoPiece? then [] else PieceMeans(validate, ps.piece) + PiecesMean(validate, ps.others)
  }

  /** A string with its quotation marks. */
  function StringText(ps: Pieces): bytes {
    [QUOTE] + (PiecesText(ps) + [QUOTE])
  }

  // ---------------------------------------------------------------- numbers, section 2.4

  const PLUS: byte := 0x2B
  const LARGEST_POWER: nat := 308
  const LARGEST_WORD: nat := 0xFFFF_FFFF_FFFF_FFFF

  /** The exponent part of a number, if there is one. */
  datatype Power = NoPower | Power(letter: byte, sign: bytes, digits: bytes)

  predicate ValidPower(p: Power) {
    p.Power? ==>
      && (p.letter == 0x65 || p.letter == 0x45) && (p.sign == [] || p.sign == [PLUS] || p.sign == [MINUS])
      && AllDigits(p.digits) && p.digits != []
  }

  function PowerText(p: Power): bytes {
    if p.NoPower? then [] else [p.letter] + p.sign + p.digits
  }

  function PowerValue(p: Power): int
    requires ValidPower(p)
  {
    if p.NoPower? then 0
    else if p.sign == [MINUS] then -(ValueFrom(0, p.digits) as int)
    else ValueFrom(0, p.digits)
  }

  function FractionText(fs: bytes): bytes {
    if fs == [] then [] else [DOT] + fs
  }

  /** No digits of a fraction: there is none, nor a point. */
  datatype Numeral = Numeral(minus: bool, whole: bytes, fraction: bytes, power: Power)

  predicate ValidWhole(whole: bytes) {
    AllDigits(whole) && whole != [] && (whole[0] == ZERO ==> |whole| == 1)
  }

  predicate ValidNumeral(n: Numeral) {
    ValidWhole(n.whole) && AllDigits(n.fraction) && ValidPower(n.power)
  }

  function NumeralText(n: Numeral): bytes {
    (if n.minus then [MINUS] else []) + (n.whole + (FractionText(n.fraction) + PowerText(n.power)))
  }

  /** Whether a number ends here: no byte that could go on with it follows. */
  predicate Stops(n: Numeral, post: bytes) {
    var c := Peek(post);
    if n.power.Power? then !IsDigit(c)
    else if n.fraction != [] then !IsDigit(c) && c != 0x65 && c != 0x45
    else (n.whole == [ZERO] || !IsDigit(c)) && c != DOT && c != 0x65 && c != 0x45
  }

  // ---- what a number says

  /** How many of the digits behind `n` a word has room for that holds numbers up to `max`. */
  function Fitting(n: nat, ds: bytes, max: nat): (k: nat)
    requires AllDigits(ds)
    ensures k <= |ds|
    decreases |ds|
  {
    if ds == [] || n * 10 + (ds[0] - ZERO) > max then 0 else 1 + Fitting(n * 10 + (ds[0] - ZERO), ds[1..], max)
  }

  /** How many digits of a fraction go into the 64-bit significand: those before which ten times it has room for any. */
  function FittingFraction(n: nat, ds: bytes): (k: nat)
    requires AllDigits(ds)
    ensures k <= |ds|
    decreases |ds|
  {
    if ds == [] || n * 10 + 9 > LARGEST_WORD then 0 else 1 + FittingFraction(n * 10 + (ds[0] - ZERO), ds[1..])
  }

  function LargestMagnitude(minus: bool): nat {
    if minus then 0x8000_0000_0000_0000 else LARGEST_WORD
  }

  /** Digits appended to a double one by one. */
  function Appended(fl: FloatOps, d: Float, ds: bytes): Float
    requires AllDigits(ds)
    decreases |ds|
  {
    if ds == [] then d else Appended(fl, fl.appendDigit(d, ds[0] - ZERO), ds[1..])
  }

  /** Whether it is never too big while digits are appended. */
  predicate NeverTooBig(fl: FloatOps, d: Float, ds: bytes)
    requires AllDigits(ds)
    decreases |ds|
  {
    ds == [] || (!fl.tooBig(d) && NeverTooBig(fl, fl.appendDigit(d, ds[0] - ZERO), ds[1..]))
  }

  /** The digits in front of the point that 64 bits hold. */
  function InWord(n: Numeral): (k: nat)
    requires ValidNumeral(n)
    ensures k <= |n.whole|
  {
    Fitting(0, n.whole, LargestMagnitude(n.minus))
  }

  /** The double of these, the others appended. */
  function WholeDouble(fl: FloatOps, n: Numeral): Float
    requires ValidNumeral(n)
  {
    Appended(fl, fl.ofUint64(ValueFrom(0, n.whole[..InWord(n)])), n.whole[InWord(n)..])
  }

  /** All the digits as a double: as many as 64 bits hold at once, the others one by one. */
  function Significand(fl: FloatOps, n: Numeral): Float
    requires ValidNumeral(n)
  {
    if InWord(n) < |n.whole| then Appended(fl, WholeDouble(fl, n), n.fraction) else
      var v := ValueFrom(0, n.whole);
      var k := FittingFraction(v, n.fraction);
      Appended(fl, fl.ofUint64(ValueFrom(v, n.fraction[..k])), n.fraction[k..])
  }

  /** StrtodFastPath on the significand, in two steps where one would lose everything. */
  function Scaled(fl: FloatOps, d: Float, exp: int32, expFrac: int32): Float {
    var sum := Wrap32(exp + expFrac);
    if sum < -308 then fl.scale(fl.scale(d, exp), expFrac) else fl.scale(d, sum)
  }

  /** Whether the digits in front of the point are not too many for a double. */
  predicate WholeAccepted(fl: FloatOps, n: Numeral)
    requires ValidNumeral(n)
  {
    NeverTooBig(fl, fl.ofUint64(ValueFrom(0, n.whole[..InWord(n)])), n.whole[InWord(n)..])
  }

  /** Whether the count of the fraction's digits has not wrapped to none. */
  predicate FractionAccepted(n: Numeral) {
    n.fraction != [] ==> |n.fraction| % 0x1_0000_0000 != 0
  }

  /** Whether a number is not refused. */
  predicate Accepted(fl: FloatOps, n: Numeral)
    requires ValidNumeral(n)
  {
    WholeAccepted(fl, n) && FractionAccepted(n) && PowerValue(n.power) <= LARGEST_POWER
  }

  /** An integer in the narrowest type that holds it, anything else a double. */
  function NumeralEvent(fl: FloatOps, n: Numeral): Event
    requires ValidNumeral(n)
  {
    var v: int := ValueFrom(0, n.whole);
    if n.fraction == [] && n.power.NoPower? && v <= LargestMagnitude(n.minus) then
      if n.minus then (if v <= 0x8000_0000 then Int(-v) else Int64(-v))
      else if v < 0x1_0000_0000 then Uint(v) else Uint64(v)
    else
      var d := Scaled(fl, Significand(fl, n), Wrap32(PowerValue(n.power)), Wrap32(-|n.fraction|));
      Double(if n.minus then fl.negate(d) else d)
  }

  // ---------------------------------------------------------------- values, sections 2 to 2.3

  /** A value. `gap` is the whitespace behind an opening bracket. */
  datatype Json =
    | NullText
    | BoolText(b: bool)
    | NumberText(n: Numeral)
    | TextText(pieces: Pieces)
    | ArrayText(gap: bytes, elements: Elements)
    | ObjectText(gap: bytes, members: Members)

  /** What follows in an array: whitespace `after` an element and, if another follows, `next` to the comma. */
  datatype Elements = NoElement | Element(value: Json, after: bytes, next: bytes, more: Elements)

  /** What follows in an object, with the whitespace around the colon. */
  datatype Members =
    | NoMember
    | Member(name: Pieces, colon: bytes, gap: bytes, value: Json, after: bytes, next: bytes, more: Members)

  predicate Valid(cf: Config, t: Json) {
    match t
    case NumberText(n) => ValidNumeral(n) && Accepted(cf.float, n)
    case TextText(pieces) => ValidPieces(cf.validate, pieces)
    case ArrayText(gap, elements) => AllBlank(gap) && ValidElements(cf, elements)
    case ObjectText(gap, members) => AllBlank(gap) && ValidMembers(cf, members)
    case _ => true
  }

  predicate ValidElements(cf: Config, es: Elements) {
    es.Element? ==> Valid(cf, es.value) && AllBlank(es.after) && AllBlank(es.next) && ValidElements(cf, es.more)
  }

  predicate ValidMembers(cf: Config, ms: Members) {
    ms.Member? ==>
      && ValidPieces(cf.validate, ms.name) && AllBlank(ms.colon) && AllBlank(ms.gap)
      && Valid(cf, ms.value) && AllBlank(ms.after) && AllBlank(ms.next) && ValidMembers(cf, ms.more)
  }

  function Spell(t: Json): bytes {
    match t
    case NullText => [0x6E, 0x75, 0x6C, 0x6C]
    case BoolText(b) => if b then [0x74, 0x72, 0x75, 0x65] else [0x66, 0x61, 0x6C, 0x73, 0x65]
    case NumberText(n) => NumeralText(n)
    case TextText(pieces) => StringText(pieces)
    case ArrayText(gap, elements) => [LBRACKET] + (gap + SpellElements(elements))
    case ObjectText(gap, members) => [LCURLY] + (gap + SpellMembers(members))
  }

  /** From an element to the closing bracket. */
  function SpellElements(es: Elements): bytes {
    if es.NoElement? then [RBRACKET] else
      Spell(es.value) + (es.after + (if es.more.NoElement? then [RBRACKET] else [COMMA] + (es.next + SpellElements(es.more))))
  }

  function SpellMembers(ms: Members): bytes {
    if ms.NoMember? then [RCURLY] else
      StringText(ms.name) + (ms.colon + ([COLON] + (ms.gap + (Spell(ms.value) + (ms.after +
        (if ms.more.NoMember? then [RCURLY] else [COMMA] + (ms.next + SpellMembers(ms.more))))))))
  }

  function CountElements(es: Elements): nat {
    if es.NoElement? then 0 else 1 + CountElements(es.more)
  }

  function CountMembers(ms: Members): nat {
    if ms.NoMember? then 0 else 1 + CountMembers(ms.more)
  }

  /** The events a value stands for. Counts are 32-bit words. */
  function Means(cf: Config, t: Json): seq<Event>
    requires Valid(cf, t)
  {
    match t
    case NullText => [Null]
    case BoolText(b) => [Bool(b)]
    case NumberText(n) => [NumeralEvent(cf.float, n)]
    case TextText(pieces) => [String(PiecesMean(cf.validate, pieces))]
    case ArrayText(_, elements) =>
      [StartArray] + (ElementsMean(cf, elements) + [EndArray(Word32(CountElements(elements)))])
    case ObjectText(_, members) =>
      [StartObject] + (MembersMean(cf, members) + [EndObject(Word32(CountMembers(members)))])
  }

  function ElementsMean(cf: Config, es: Elements): seq<Event>
    requires ValidElements(cf, es)
  {
    if es.NoElement? then [] else Means(cf, es.value) + ElementsMean(cf, es.more)
  }

  function MembersMean(cf: Config, ms: Members): seq<Event>
    requires ValidMembers(cf, ms)
  {
    if ms.NoMember? then [] else
      [Key(PiecesMean(cf.validate, ms.name))] + (Means(cf, ms.value) + MembersMean(cf, ms.more))
  }

  // ---------------------------------------------------------------- whole texts

  /** Whether a value ends here: a number must, everything else says so itself. */
  predicate Ends(t: Json, post: bytes) {
    t.NumberText? ==> Stops(t.n, post)
  }

  /** Whitespace, a value, and whatever comes behind it. */
  predicate Begins(cf: Config, text: bytes, before: bytes, t: Json, post: bytes) {
    text == before + (Spell(t) + post) && AllBlank(before) && Valid(cf, t) && Ends(t, post)
  }

  /** Nothing but whitespace, up to the end or a NUL. */
  predicate BlankToEnd(post: bytes) {
    post == [] || post[0] == 0 || (IsBlank(post[0]) && BlankToEnd(post[1..]))
  }
}
