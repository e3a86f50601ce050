/** What GenericReader does, stage by stage, as functions of the text that is left (reader.h).
    The class in Reader.dfy is proved to do exactly this. */
module ReaderSpec {
  import opened Streams
  import opened Events
  import Utf8

  datatype ErrorCode =
    | NoError
    | DocumentEmpty
    | DocumentRootNotSingular
    | ValueInvalid
    | ObjectMissName
    | ObjectMissColon
    | ObjectMissCommaOrCurlyBracket
    | ArrayMissCommaOrSquareBracket
    | StringUnicodeEscapeInvalidHex
    | StringUnicodeSurrogateInvalid
    | StringEscapeInvalid
    | StringMissQuotationMark
    | StringInvalidEncoding
    | NumberTooBig
    | NumberMissFraction
    | NumberMissExponent
    | Termination
    | UnspecificSyntaxError

  /** Where a parse stands: the text that is left, the events sent, the error flag. */
  datatype Progress = Progress(rest: bytes, events: seq<Event>, error: ErrorCode)

  function Fail(s: Progress, code: ErrorCode): Progress {
    s.(error := code)
  }

  function Emit(cf: Config, s: Progress, e: Event): Progress {
    var events := s.events + [e];
    Progress(s.rest, events, if cf.accept(events) then s.error else Termination)
  }

  /** A handler that never stops the parse. */
  ghost predicate AcceptsAll(cf: Config) {
    forall events :: cf.accept(events)
  }

  lemma EmitAll(cf: Config, s: Progress, e: Event)
    requires AcceptsAll(cf)
    ensures Emit(cf, s, e) == s.(events := s.events + [e])
  {
  }

  // ---------------------------------------------------------------- literals

  datatype Matched = Matched(ok: bool, rest: bytes)

  /** is.Take() == lit[0] && is.Take() == lit[1] && ... */
  function TakeAll(rest: bytes, lit: bytes): (m: Matched)
    ensures |m.rest| <= |rest|
    decreases |lit|
  {
    if lit == [] then Matched(true, rest)
    else if Peek(rest) == lit[0] then TakeAll(Next(rest), lit[1..])
    else Matched(false, Next(rest))
  }

  const ULL: bytes := [0x75, 0x6C, 0x6C]
  const RUE: bytes := [0x72, 0x75, 0x65]
  const ALSE: bytes := [0x61, 0x6C, 0x73, 0x65]

  /** ParseNull, ParseTrue and ParseFalse: the first letter, which chose the branch, then the others. */
  function ParseLiteral(cf: Config, s: Progress, lit: bytes, e: Event): (r: Progress)
    requires s.rest != []
    ensures |r.rest| < |s.rest|
  {
    var m := TakeAll(Next(s.rest), lit);
    if m.ok then Emit(cf, s.(rest := m.rest), e) else Fail(s.(rest := m.rest), ValueInvalid)
  }

  // ---------------------------------------------------------------- strings

  /** The escape table: what stands for an escape letter, 0 if nothing does. */
  function Unescape(e: byte): byte {
    if e == QUOTE || e == 0x2F || e == BACKSLASH then e
    else if e == 0x62 then 0x08
    else if e == 0x66 then 0x0C
    else if e == 0x6E then 0x0A
    else if e == 0x72 then 0x0D
    else if e == 0x74 then 0x09
    else 0
  }

  datatype Hex = Hex(codepoint: nat, rest: bytes, error: ErrorCode)

  function HexValue(c: byte): (d: int)
    ensures -1 <= d < 0x10
  {
    if IsDigit(c) then c as int - 0x30
    else if 0x41 <= c <= 0x46 then c as int - 0x37
    else if 0x61 <= c <= 0x66 then c as int - 0x57
    else -1
  }

  /** ParseHex4 with `n` digits to go. A bad digit sets the error and ends it with 0; the caller carries on. */
  function ParseHex(h: Hex, n: nat): (r: Hex)
    requires n <= 4 && h.codepoint < HexBound(n)
    ensures r.codepoint < 0x10000
    ensures |r.rest| <= |h.rest|
    ensures h.error != NoError ==> r.error != NoError
    decreases n
  {
    if n == 0 then h else
      var d := HexValue(Peek(h.rest));
      if d < 0 then Hex(0, Next(h.rest), StringUnicodeEscapeInvalidHex)
      else ParseHex(Hex(h.codepoint * 0x10 + d, Next(h.rest), h.error), n - 1)
  }

  /** What the digits read so far stay below with `n` to go. */
  function HexBound(n: nat): nat {
    if n >= 4 then 1 else if n == 3 then 0x10 else if n == 2 then 0x100 else if n == 1 then 0x1000 else 0x10000
  }

  function ParseHex4(rest: bytes, error: ErrorCode): (r: Hex)
    ensures r.codepoint < 0x10000
    ensures |r.rest| <= |rest|
    ensures error != NoError ==> r.error != NoError
  {
    ParseHex(Hex(0, rest, error), 4)
  }

  /** The text of a \u escape, the surrogate pair included; `codepoint` is meaningful when `ok`. */
  datatype Unicode = Unicode(ok: bool, codepoint: nat, rest: bytes, error: ErrorCode)

  function ParseUnicode(rest: bytes, error: ErrorCode): (r: Unicode)
    ensures r.ok ==> r.codepoint <= 0x10FFFF
    ensures |r.rest| <= |rest|
    ensures error != NoError || !r.ok ==> r.error != NoError
  {
    var h := ParseHex4(rest, error);
    if 0xD800 <= h.codepoint <= 0xDBFF then
      var m := TakeAll(h.rest, [BACKSLASH, 0x75]);
      if !m.ok then Unicode(false, 0, m.rest, StringUnicodeSurrogateInvalid) else
        var h2 := ParseHex4(m.rest, h.error);
        if h2.codepoint < 0xDC00 || h2.codepoint > 0xDFFF then
          Unicode(false, 0, h2.rest, StringUnicodeSurrogateInvalid)
        else
          Unicode(true, (h.codepoint - 0xD800) * 0x400 + (h2.codepoint - 0xDC00) + 0x10000, h2.rest, h2.error)
    else
      Unicode(true, h.codepoint, h.rest, h.error)
  }

  datatype Scanned = Scanned(text: bytes, rest: bytes, error: ErrorCode)

  /** The loop of ParseStringToStream, after the opening quote. */
  function ScanString(validate: bool, s: Scanned): (r: Scanned)
    ensures |r.rest| <= |s.rest|
    ensures r.error == NoError ==> |r.rest| < |s.rest|
    ensures s.error != NoError ==> r.error != NoError
    decreases |s.rest|
  {
    var c := Peek(s.rest);
    if c == BACKSLASH then
      var e := Peek(Next(s.rest));
      var rest := Next(Next(s.rest));
      if Unescape(e) != 0 then ScanString(validate, Scanned(s.text + [Unescape(e)], rest, s.error))
      else if e == 0x75 then
        var u := ParseUnicode(rest, s.error);
        if u.ok then ScanString(validate, Scanned(s.text + Utf8.Encode(u.codepoint), u.rest, u.error))
        else Scanned(s.text, u.rest, u.error)
      else Scanned(s.text, rest, StringEscapeInvalid)
    else if c == QUOTE then Scanned(s.text, Next(s.rest), s.error)
    else if c == 0 then Scanned(s.text, s.rest, StringMissQuotationMark)
    else if c < 0x20 then Scanned(s.text, s.rest, StringEscapeInvalid)
    else if validate then
      var v := Utf8.ValidateOne(s.rest);
      Utf8.ValidateIsDecode(s.rest);
      Utf8.ValidateAdvances(s.rest);
      if v.ok then ScanString(validate, Scanned(s.text + v.copied, v.rest, s.error))
      else Scanned(s.text + v.copied, v.rest, StringInvalidEncoding)
    else ScanString(validate, Scanned(s.text + [c], Next(s.rest), s.error))
  }

  function ParseString(cf: Config, s: Progress, isKey: bool): (r: Progress)
    requires s.rest != [] && s.error == NoError
    ensures |r.rest| < |s.rest|
  {
    var scan := ScanString(cf.validate, Scanned([], Next(s.rest), NoError));
    if scan.error != NoError then Progress(scan.rest, s.events, scan.error)
    else Emit(cf, s.(rest := scan.rest), if isKey then Key(scan.text) else String(scan.text))
  }

  // ---------------------------------------------------------------- numbers

  datatype Accumulated = Accumulated(value: nat, rest: bytes, full: bool)

  /** An integer accumulator that gives up, with `full`, before the digit that would take it past limit * 10 + last. */
  function Accumulate(rest: bytes, value: nat, limit: nat, last: byte): (a: Accumulated)
    requires IsDigit(last)
    requires value <= limit * 10 + (last - ZERO)
    ensures |a.rest| <= |rest|
    ensures a.value <= limit * 10 + (last - ZERO)
    ensures a.full <==> IsDigit(Peek(a.rest))
    ensures a.full ==> a.value * 10 + (Peek(a.rest) - ZERO) > limit * 10 + (last - ZERO)
  {
    var c := Peek(rest);
    if !IsDigit(c) then Accumulated(value, rest, false)
    else if value >= limit && (value != limit || c > last) then Accumulated(value, rest, true)
    else Accumulate(Next(rest), value * 10 + (c - ZERO), limit, last)
  }

  const LIMIT_INT: nat := 214748364                   // 2^31 = 2147483648
  const LIMIT_UINT: nat := 429496729                  // 2^32 - 1 = 4294967295
  const LIMIT_INT64: nat := 0x0CCC_CCCC_CCCC_CCCC     // 2^63 = 9223372036854775808
  const LIMIT_UINT64: nat := 0x1999_9999_9999_9999    // 2^64 - 1 = 18446744073709551615
  const EIGHT: byte := 0x38
  const FIVE: byte := 0x35

  function IntLimit(minus: bool): (limit: nat)
    ensures limit >= 9
  {
    if minus then LIMIT_INT else LIMIT_UINT
  }

  function Int64Limit(minus: bool): nat { if minus then LIMIT_INT64 else LIMIT_UINT64 }

  function LastDigit(minus: bool): (last: byte)
    ensures IsDigit(last)
  {
    if minus then EIGHT else FIVE
  }

  /** A number so far: `value` in i or i64, or once `useDouble` the double `d`. */
  datatype Number = Number(rest: bytes, value: nat, use64bit: bool, useDouble: bool, d: Float, error: ErrorCode)

  function BigDigits(fl: FloatOps, n: Number): (r: Number)
    ensures |r.rest| <= |n.rest|
    ensures r.useDouble == n.useDouble && r.value == n.value
    decreases |n.rest|
  {
    var c := Peek(n.rest);
    if !IsDigit(c) then n
    else if fl.tooBig(n.d) then n.(error := NumberTooBig)
    else BigDigits(fl, n.(rest := Next(n.rest), d := fl.appendDigit(n.d, c - ZERO)))
  }

  /** The integer part after the sign: an empty error means at least one digit was read. */
  function ParseInteger(fl: FloatOps, rest: bytes, minus: bool): (n: Number)
    ensures |n.rest| <= |rest|
    ensures n.error == NoError ==> |n.rest| < |rest|
    ensures n.value < 0x1_0000_0000_0000_0000
    ensures n.useDouble || n.use64bit || n.value < 0x1_0000_0000
  {
    var zero := fl.ofUint64(0);
    if Peek(rest) == ZERO then Number(Next(rest), 0, false, false, zero, NoError)
    else if IsDigit(Peek(rest)) then
      var a := Accumulate(Next(rest), Peek(rest) - ZERO, IntLimit(minus), LastDigit(minus));
      if !a.full then Number(a.rest, a.value, false, false, zero, NoError) else
        var b := Accumulate(a.rest, a.value, Int64Limit(minus), LastDigit(minus));
        if !b.full then Number(b.rest, b.value, true, false, zero, NoError)
        else BigDigits(fl, Number(b.rest, b.value, true, true, fl.ofUint64(b.value), NoError))
    else Number(rest, 0, false, false, zero, ValueInvalid)
  }

  /** `exp` is an int and wraps like one. */
  datatype Fraction = Fraction(value: nat, d: Float, rest: bytes, exp: int32)

  /** Fraction digits into i64, while it has room. */
  function FractionBits(f: Fraction): (r: Fraction)
    requires f.value < 0x1_0000_0000_0000_0000
    ensures |r.rest| <= |f.rest|
    ensures r.value < 0x1_0000_0000_0000_0000
    decreases |f.rest|
  {
    var c := Peek(f.rest);
    if !IsDigit(c) || f.value >= LIMIT_UINT64 then f
    else FractionBits(f.(value := f.value * 10 + (c - ZERO), rest := Next(f.rest), exp := Wrap32(f.exp - 1)))
  }

  /** The remaining fraction digits into d. */
  function FractionDigits(fl: FloatOps, f: Fraction): (r: Fraction)
    ensures |r.rest| <= |f.rest|
    ensures r.value == f.value
    decreases |f.rest|
  {
    var c := Peek(f.rest);
    if !IsDigit(c) then f
    else FractionDigits(fl, f.(d := fl.appendDigit(f.d, c - ZERO), rest := Next(f.rest), exp := Wrap32(f.exp - 1)))
  }

  /** frac = decimal-point 1*DIGIT; returns the digits' weight beside the number. */
  function ParseFraction(fl: FloatOps, n: Number): (r: (Number, int32))
    requires n.value < 0x1_0000_0000_0000_0000
    ensures |r.0.rest| <= |n.rest|
    ensures r.0.value < 0x1_0000_0000_0000_0000 && r.0.use64bit == n.use64bit
    ensures r.0.useDouble || r.0.value == n.value
  {
    if Peek(n.rest) != DOT then (n, 0) else
      var f := if n.useDouble then Fraction(n.value, n.d, Next(n.rest), 0)
               else var b := FractionBits(Fraction(n.value, n.d, Next(n.rest), 0)); b.(d := fl.ofUint64(b.value));
      var g := FractionDigits(fl, f);
      (Number(g.rest, g.value, n.use64bit, true, g.d, if g.exp == 0 then NumberMissFraction else NoError), g.exp)
  }

  /** `value` is an int; after a minus sign nothing keeps it from wrapping. */
  datatype Exponent = Exponent(value: int32, rest: bytes, tooBig: bool)

  function ExponentDigits(e: Exponent, minus: bool): (r: Exponent)
    ensures |r.rest| <= |e.rest|
    decreases |e.rest|
  {
    var c := Peek(e.rest);
    if !IsDigit(c) then e else
      var value := Wrap32(e.value * 10 + (c - ZERO));
      if value > 308 && !minus then Exponent(value, Next(e.rest), true)
      else ExponentDigits(Exponent(value, Next(e.rest), false), minus)
  }

  /** exp = e [ minus / plus ] 1*DIGIT; returns the exponent beside the number. */
  function ParseExponent(fl: FloatOps, n: Number): (r: (Number, int32))
    ensures |r.0.rest| <= |n.rest|
    ensures r.0.value == n.value && r.0.use64bit == n.use64bit
    ensures n.useDouble ==> r.0.useDouble
  {
    if Peek(n.rest) != 0x65 && Peek(n.rest) != 0x45 then (n, 0) else
      var d := if n.useDouble then n.d else fl.ofUint64(n.value);
      var sign := Peek(Next(n.rest));
      var minus := sign == MINUS;
      var rest := if sign == 0x2B || minus then Next(Next(n.rest)) else Next(n.rest);
      if !IsDigit(Peek(rest)) then
        (Number(rest, n.value, n.use64bit, true, d, NumberMissExponent), 0)
      else
        var e := ExponentDigits(Exponent(Peek(rest) - ZERO, Next(rest), false), minus);
        (Number(e.rest, n.value, n.use64bit, true, d, if e.tooBig then NumberTooBig else NoError),
         if minus then Wrap32(-(e.value as int)) else e.value)
  }

  /** -(int)i: the conversion and the negation both wrap. */
  function NegateInt32(u: uint32): (i: int32)
    ensures u <= 0x8000_0000 ==> i == -(u as int)
  {
    Wrap32(-(Signed32(u) as int))
  }

  /** -(int64_t)i64 */
  function NegateInt64(u: uint64): (i: int64)
    ensures u <= 0x8000_0000_0000_0000 ==> i == -(u as int)
  {
    Wrap64(-(Signed64(u) as int))
  }

  /** The event for a finished number. */
  function NumberEvent(fl: FloatOps, n: Number, minus: bool, exp: int32, expFrac: int32): Event
    requires n.value < 0x1_0000_0000_0000_0000
    requires n.useDouble || n.use64bit || n.value < 0x1_0000_0000
  {
    if n.useDouble then
      var sum := Wrap32(exp + expFrac);
      var d := if sum < -308 then fl.scale(fl.scale(n.d, exp), expFrac) else fl.scale(n.d, sum);
      Double(if minus then fl.negate(d) else d)
    else if n.use64bit then
      if minus then Int64(NegateInt64(n.value)) else Uint64(n.value)
    else
      if minus then Int(NegateInt32(n.value)) else Uint(n.value)
  }

  function ParseNumber(cf: Config, s: Progress): (r: Progress)
    requires s.error == NoError
    ensures |r.rest| <= |s.rest|
    ensures r.error == NoError ==> |r.rest| < |s.rest|
    ensures r.events == s.events || (|r.rest| < |s.rest| && |r.events| == |s.events| + 1)
  {
    var minus := Peek(s.rest) == MINUS;
    var n := ParseInteger(cf.float, if minus then Next(s.rest) else s.rest, minus);
    if n.error != NoError then Progress(n.rest, s.events, n.error) else
      var (f, expFrac) := ParseFraction(cf.float, n);
      if f.error != NoError then Progress(f.rest, s.events, f.error) else
        var (e, exp) := ParseExponent(cf.float, f);
        if e.error != NoError then Progress(e.rest, s.events, e.error) else
          Emit(cf, s.(rest := e.rest), NumberEvent(cf.float, e, minus, exp, expFrac))
  }

  // ---------------------------------------------------------------- recursive descent

  function Skip(s: Progress): Progress {
    s.(rest := SkipSpace(s.rest))
  }

  function ParseValue(cf: Config, s: Progress): (r: Progress)
    requires s.error == NoError
    ensures |r.rest| <= |s.rest|
    ensures r.error == NoError ==> |r.rest| < |s.rest|
    decreases |s.rest|, 1
  {
    var c := Peek(s.rest);
    if c == 0x6E then ParseLiteral(cf, s, ULL, Null)
    else if c == 0x74 then ParseLiteral(cf, s, RUE, Bool(true))
    else if c == 0x66 then ParseLiteral(cf, s, ALSE, Bool(false))
    else if c == QUOTE then ParseString(cf, s, false)
    else if c == LCURLY then ParseObject(cf, s)
    else if c == LBRACKET then ParseArray(cf, s)
    else ParseNumber(cf, s)
  }

  function ParseObject(cf: Config, s: Progress): (r: Progress)
    requires s.error == NoError && s.rest != []
    ensures |r.rest| < |s.rest|
    decreases |s.rest|, 0
  {
    var s1 := Emit(cf, s.(rest := Next(s.rest)), StartObject);
    if s1.error != NoError then s1 else
      var s2 := Skip(s1);
      if Peek(s2.rest) == RCURLY then Emit(cf, s2.(rest := Next(s2.rest)), EndObject(0))
      else ParseMembers(cf, s2, 0)
  }

  /** The loop of ParseObject, before the name of a member. */
  function ParseMembers(cf: Config, s: Progress, count: uint32): (r: Progress)
    requires s.error == NoError
    ensures |r.rest| <= |s.rest|
    ensures r.error == NoError ==> |r.rest| < |s.rest|
    decreases |s.rest|, 2
  {
    if Peek(s.rest) != QUOTE then Fail(s, ObjectMissName) else
      var s1 := ParseString(cf, s, true);
      if s1.error != NoError then s1 else
        var s2 := Skip(s1);
        var s3 := s2.(rest := Next(s2.rest));
        if Peek(s2.rest) != COLON then Fail(s3, ObjectMissColon) else
          var s4 := ParseValue(cf, Skip(s3));
          if s4.error != NoError then s4 else
            var s5 := Skip(s4);
            var s6 := s5.(rest := Next(s5.rest));
            if Peek(s5.rest) == COMMA then ParseMembers(cf, Skip(s6), IncSize(count))
            else if Peek(s5.rest) == RCURLY then Emit(cf, s6, EndObject(IncSize(count)))
            else Fail(s6, ObjectMissCommaOrCurlyBracket)
  }

  function ParseArray(cf: Config, s: Progress): (r: Progress)
    requires s.error == NoError && s.rest != []
    ensures |r.rest| < |s.rest|
    decreases |s.rest|, 0
  {
    var s1 := Emit(cf, s.(rest := Next(s.rest)), StartArray);
    if s1.error != NoError then s1 else
      var s2 := Skip(s1);
      if Peek(s2.rest) == RBRACKET then Emit(cf, s2.(rest := Next(s2.rest)), EndArray(0))
      else ParseElements(cf, s2, 0)
  }

  /** The loop of ParseArray, before an element. */
  function ParseElements(cf: Config, s: Progress, count: uint32): (r: Progress)
    requires s.error == NoError
    ensures |r.rest| <= |s.rest|
    ensures r.error == NoError ==> |r.rest| < |s.rest|
    decreases |s.rest|, 2
  {
    var s1 := ParseValue(cf, s);
    if s1.error != NoError then s1 else
      var s2 := Skip(s1);
      var s3 := s2.(rest := Next(s2.rest));
      if Peek(s2.rest) == COMMA then ParseElements(cf, Skip(s3), IncSize(count))
      else if Peek(s2.rest) == RBRACKET then Emit(cf, s3, EndArray(IncSize(count)))
      else Fail(s3, ArrayMissCommaOrSquareBracket)
  }

  /** Parse without kParseIterativeFlag. */
  function ParseRecursive(cf: Config, text: bytes): Progress {
    var s := Skip(Progress(text, [], NoError));
    if Peek(s.rest) == 0 then Fail(s, DocumentEmpty) else
      var s1 := ParseValue(cf, s);
      if s1.error != NoError || cf.stopWhenDone then s1 else
        var s2 := Skip(s1);
        if Peek(s2.rest) != 0 then Fail(s2, DocumentRootNotSingular) else s2
  }
}
