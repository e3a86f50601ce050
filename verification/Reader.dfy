/** GenericReader: the two parsers as they run, over a stream that moves and a stack that grows and shrinks (reader.h).
    Each method is proved against the function of the same name in ReaderSpec and Automaton. */
module Reader {
  import opened Streams
  import opened Events
  import opened ReaderSpec
  import opened Automaton
  import Equivalence
  import Utf8

  /** What the automaton pushes: SizeType words, a state below the count of its bracket. */
  datatype Slot = StateSlot(state: State) | CountSlot(count: uint32)

  function Slots(frames: seq<Frame>): (slots: seq<Slot>)
    ensures |slots| == 2 * |frames|
    ensures forall i | 0 <= i < |frames| ::
              slots[2 * i] == StateSlot(frames[i].resume) && slots[2 * i + 1] == CountSlot(frames[i].commas)
  {
    if frames == [] then [] else
      var top := frames[|frames| - 1];
      Slots(frames[..|frames| - 1]) + [StateSlot(top.resume), CountSlot(top.commas)]
  }

  lemma PushSlots(frames: seq<Frame>, f: Frame)
    ensures Slots(frames + [f]) == Slots(frames) + [StateSlot(f.resume), CountSlot(f.commas)]
  {
    assert (frames + [f])[..|frames|] == frames;
  }

  method SkipWhitespace(input: InputStream)
    modifies input
    ensures input.rest == SkipSpace(old(input.rest))
  {
    while IsSpace(Peek(input.rest))
      invariant SkipSpace(input.rest) == SkipSpace(old(input.rest))
      decreases |input.rest|
    {
      var _ := input.Take();
    }
  }

  class GenericReader {
    const cf: Config
    var events: seq<Event>       // what the handler was sent
    var error: ErrorCode         // parseResult_
    var stack: seq<Slot>         // stack_

    constructor (cf: Config)
      ensures this.cf == cf && error == NoError && events == [] && stack == []
    {
      this.cf := cf;
      events, error, stack := [], NoError, [];
    }

    ghost function Now(input: InputStream): Progress
      reads this, input
    {
      Progress(input.rest, events, error)
    }

    method Notify(input: InputStream, e: Event)
      requires error == NoError
      modifies this`events, this`error
      ensures Now(input) == Emit(cf, old(Now(input)), e)
    {
      events := events + [e];
      if !cf.accept(events) {
        error := Termination;
      }
    }

    // -------------------------------------------------------------- scalars

    method ParseLiteral(input: InputStream, lit: bytes, e: Event)
      requires input.rest != [] && error == NoError
      modifies this`events, this`error, input
      ensures Now(input) == ReaderSpec.ParseLiteral(cf, old(Now(input)), lit, e)
    {
      var c := input.Take();
      var i := 0;
      while i < |lit|
        invariant 0 <= i <= |lit|
        invariant TakeAll(input.rest, lit[i..]) == TakeAll(old(Next(input.rest)), lit)
        invariant events == old(events) && error == NoError
      {
        c := input.Take();
        if c != lit[i] {
          error := ValueInvalid;
          return;
        }
        assert lit[i..][1..] == lit[i + 1..];
        i := i + 1;
      }
      Notify(input, e);
    }

    method ParseHex4(input: InputStream) returns (codepoint: nat)
      modifies this`error, input
      ensures Hex(codepoint, input.rest, error) == ReaderSpec.ParseHex4(old(input.rest), old(error))
    {
      hide HexValue;
      codepoint := 0;
      for i := 0 to 4
        invariant codepoint < HexBound(4 - i)
        invariant ParseHex(Hex(codepoint, input.rest, error), 4 - i) ==
                    ReaderSpec.ParseHex4(old(input.rest), old(error))
      {
        var c := input.Take();
        var d := HexValue(c);
        if d < 0 {
          error := StringUnicodeEscapeInvalidHex;
          return 0;
        }
        codepoint := codepoint * 0x10 + d;
      }
    }

    method ParseUnicode(input: InputStream) returns (ok: bool, codepoint: nat)
      modifies this`error, input
      ensures Unicode(ok, codepoint, input.rest, error) == ReaderSpec.ParseUnicode(old(input.rest), old(error))
    {
      hide ReaderSpec.ParseHex4;
      codepoint := ParseHex4(input);
      if 0xD800 <= codepoint <= 0xDBFF {
        ghost var tail := TakeAll(input.rest, [BACKSLASH, 0x75]);
        assert [BACKSLASH, 0x75][1..] == [0x75] && [0x75][1..] == [];
        var c := input.Take();
        var paired := c == BACKSLASH;
        if paired {
          assert tail == TakeAll(input.rest, [0x75]);
          c := input.Take();
          paired := c == 0x75;
        }
        if !paired {
          error := StringUnicodeSurrogateInvalid;
          return false, 0;
        }
        var codepoint2 := ParseHex4(input);
        if codepoint2 < 0xDC00 || codepoint2 > 0xDFFF {
          error := StringUnicodeSurrogateInvalid;
          return false, 0;
        }
        codepoint := (codepoint - 0xD800) * 0x400 + (codepoint2 - 0xDC00) + 0x10000;
      }
      ok := true;
    }

    /** The loop runs on after a bad hex digit: only the caller looks at the error. */
    method ParseStringToStream(input: InputStream, os: OutputStream)
      requires input.rest != []
      modifies this`error, input, os
      ensures Scanned(os.written, input.rest, error) ==
                ScanString(cf.validate, Scanned(old(os.written), old(Next(input.rest)), old(error)))
    {
      hide ReaderSpec.ParseUnicode, Utf8.ValidateOne, Utf8.Encode;
      var c := input.Take();
      while true
        invariant ScanString(cf.validate, Scanned(os.written, input.rest, error)) ==
                    ScanString(cf.validate, Scanned(old(os.written), old(Next(input.rest)), old(error)))
        decreases |input.rest|
      {
        c := Peek(input.rest);
        if c == BACKSLASH {
          c := input.Take();
          var e := input.Take();
          if Unescape(e) != 0 {
            os.Put(Unescape(e));
          } else if e == 0x75 {
            var ok, codepoint := ParseUnicode(input);
            if !ok {
              return;
            }
            Utf8.EncodeTo(os, codepoint);
          } else {
            error := StringEscapeInvalid;
            return;
          }
        } else if c == QUOTE {
          c := input.Take();
          return;
        } else if c == 0 {
          error := StringMissQuotationMark;
          return;
        } else if c < 0x20 {
          error := StringEscapeInvalid;
          return;
        } else if cf.validate {
          Utf8.ValidateAdvances(input.rest);
          var ok := Utf8.Validate(input, os);
          if !ok {
            error := StringInvalidEncoding;
            return;
          }
        } else {
          c := input.Take();
          os.Put(c);
        }
      }
    }

    method ParseString(input: InputStream, isKey: bool)
      requires input.rest != [] && error == NoError
      modifies this`events, this`error, input
      ensures Now(input) == ReaderSpec.ParseString(cf, old(Now(input)), isKey)
    {
      hide ScanString;
      var os := new OutputStream();
      ParseStringToStream(input, os);
      if error == NoError {
        Notify(input, if isKey then Key(os.written) else String(os.written));
      }
    }

    // -------------------------------------------------------------- numbers

    /** One of the four accumulator loops; `value` never passes limit * 10 + last, so the word it models never wraps. */
    method ReadAccumulator(input: InputStream, start: nat, limit: nat, last: byte) returns (value: nat, full: bool)
      requires IsDigit(last) && start <= limit * 10 + (last - ZERO)
      modifies input
      ensures Accumulated(value, input.rest, full) == Accumulate(old(input.rest), start, limit, last)
    {
      value, full := start, false;
      while IsDigit(Peek(input.rest))
        invariant value <= limit * 10 + (last - ZERO)
        invariant Accumulate(input.rest, value, limit, last) == Accumulate(old(input.rest), start, limit, last)
        decreases |input.rest|
      {
        if value >= limit {
          if value != limit || Peek(input.rest) > last {
            return value, true;
          }
        }
        var c := input.Take();
        value := value * 10 + (c - ZERO);
      }
    }

    method ParseNumber(input: InputStream)
      requires error == NoError
      modifies this`events, this`error, input
      ensures Now(input) == ReaderSpec.ParseNumber(cf, old(Now(input)))
    {
      hide Accumulate, BigDigits, FractionBits, FractionDigits, ExponentDigits, NumberEvent;
      var minus := Peek(input.rest) == MINUS;
      if minus {
        var _ := input.Take();
      }
      ghost var n := ReaderSpec.ParseInteger(cf.float, input.rest, minus);
      var value, use64bit, useDouble, d := ParseInteger(input, minus);
      assert n == Number(input.rest, value, use64bit, useDouble, d, error);
      if error != NoError {
        return;
      }
      ghost var f := ReaderSpec.ParseFraction(cf.float, n);
      var expFrac;
      value, useDouble, d, expFrac := ParseFraction(input, value, use64bit, useDouble, d);
      if error != NoError {
        return;
      }
      var exp;
      useDouble, d, exp := ParseExponent(input, value, use64bit, useDouble, d);
      if error != NoError {
        return;
      }
      Notify(input, NumberEvent(cf.float, Number(input.rest, value, use64bit, useDouble, d, NoError), minus, exp, expFrac));
    }

    method ParseInteger(input: InputStream, minus: bool) returns (value: nat, use64bit: bool, useDouble: bool, d: Float)
      requires error == NoError
      modifies this`error, input
      ensures Number(input.rest, value, use64bit, useDouble, d, error) ==
                ReaderSpec.ParseInteger(cf.float, old(input.rest), minus)
    {
      hide Accumulate, BigDigits;
      value, use64bit, useDouble, d := 0, false, false, cf.float.ofUint64(0);
      if Peek(input.rest) == ZERO {
        var _ := input.Take();
      } else if IsDigit(Peek(input.rest)) {
        var c := input.Take();
        value := c - ZERO;
        if minus {
          value, use64bit := ReadAccumulator(input, value, LIMIT_INT, EIGHT);
        } else {
          value, use64bit := ReadAccumulator(input, value, LIMIT_UINT, FIVE);
        }
        if use64bit {
          if minus {
            value, useDouble := ReadAccumulator(input, value, LIMIT_INT64, EIGHT);
          } else {
            value, useDouble := ReadAccumulator(input, value, LIMIT_UINT64, FIVE);
          }
          if useDouble {
            d := cf.float.ofUint64(value);
            d := ReadBigDigits(input, value, d);
          }
        }
      } else {
        error := ValueInvalid;
      }
    }

    /** Force double for big integers. */
    method ReadBigDigits(input: InputStream, ghost value: nat, start: Float) returns (d: Float)
      requires error == NoError
      modifies this`error, input
      ensures Number(input.rest, value, true, true, d, error) ==
                BigDigits(cf.float, Number(old(input.rest), value, true, true, start, NoError))
    {
      d := start;
      ghost var n := Number(input.rest, value, true, true, d, NoError);
      while IsDigit(Peek(input.rest))
        invariant error == NoError
        invariant BigDigits(cf.float, Number(input.rest, value, true, true, d, NoError)) == BigDigits(cf.float, n)
        decreases |input.rest|
      {
        if cf.float.tooBig(d) {
          error := NumberTooBig;
          return;
        }
        var c := input.Take();
        d := cf.float.appendDigit(d, c - ZERO);
      }
    }

    /** Fraction digits into i64, while it has room. */
    method ReadFractionBits(input: InputStream, start: nat, ghost d: Float) returns (value: nat, exp: int32)
      requires start < 0x1_0000_0000_0000_0000
      modifies input
      ensures value < 0x1_0000_0000_0000_0000
      ensures Fraction(value, d, input.rest, exp) == FractionBits(Fraction(start, d, old(input.rest), 0))
    {
      value, exp := start, 0;
      while IsDigit(Peek(input.rest))
        invariant value < 0x1_0000_0000_0000_0000
        invariant FractionBits(Fraction(value, d, input.rest, exp)) ==
                    FractionBits(Fraction(start, d, old(input.rest), 0))
        decreases |input.rest|
      {
        if value >= LIMIT_UINT64 {
          break;
        }
        var c := input.Take();
        value := value * 10 + (c - ZERO);
        exp := Wrap32(exp - 1);
      }
    }

    /** The remaining fraction digits into d. */
    method ReadFractionDigits(input: InputStream, ghost value: nat, start: Float, exp0: int32) returns (d: Float, exp: int32)
      modifies input
      ensures Fraction(value, d, input.rest, exp) ==
                FractionDigits(cf.float, Fraction(value, start, old(input.rest), exp0))
    {
      d, exp := start, exp0;
      while IsDigit(Peek(input.rest))
        invariant FractionDigits(cf.float, Fraction(value, d, input.rest, exp)) ==
                    FractionDigits(cf.float, Fraction(value, start, old(input.rest), exp0))
        decreases |input.rest|
      {
        var c := input.Take();
        d := cf.float.appendDigit(d, c - ZERO);
        exp := Wrap32(exp - 1);
      }
    }

    method ReadExponentDigits(input: InputStream, start: int32, minus: bool) returns (value: int32, tooBig: bool)
      modifies input
      ensures Exponent(value, input.rest, tooBig) == ExponentDigits(Exponent(start, old(input.rest), false), minus)
    {
      value, tooBig := start, false;
      while IsDigit(Peek(input.rest))
        invariant ExponentDigits(Exponent(value, input.rest, false), minus) ==
                    ExponentDigits(Exponent(start, old(input.rest), false), minus)
        decreases |input.rest|
      {
        var c := input.Take();
        value := Wrap32(value * 10 + (c - ZERO));
        if value > 308 && !minus {
          return value, true;
        }
      }
    }

    method ParseFraction(input: InputStream, value: nat, use64bit: bool, useDouble: bool, d: Float)
      returns (value': nat, useDouble': bool, d': Float, expFrac: int32)
      requires error == NoError && value < 0x1_0000_0000_0000_0000
      modifies this`error, input
      ensures (Number(input.rest, value', use64bit, useDouble', d', error), expFrac) ==
                ReaderSpec.ParseFraction(cf.float, Number(old(input.rest), value, use64bit, useDouble, d, NoError))
    {
      hide FractionBits, FractionDigits;
      value', useDouble', d', expFrac := value, useDouble, d, 0;
      if Peek(input.rest) == DOT {
        var c := input.Take();
        if !useDouble {
          value', expFrac := ReadFractionBits(input, value, d);
          d' := cf.float.ofUint64(value');
        }
        useDouble' := true;
        d', expFrac := ReadFractionDigits(input, value', d', expFrac);
        if expFrac == 0 {
          error := NumberMissFraction;
        }
      }
    }

    method ParseExponent(input: InputStream, value: nat, use64bit: bool, useDouble: bool, d: Float)
      returns (useDouble': bool, d': Float, exp: int32)
      requires error == NoError
      modifies this`error, input
      ensures (Number(input.rest, value, use64bit, useDouble', d', error), exp) ==
                ReaderSpec.ParseExponent(cf.float, Number(old(input.rest), value, use64bit, useDouble, d, NoError))
    {
      hide ExponentDigits;
      useDouble', d', exp := useDouble, d, 0;
      if Peek(input.rest) == 0x65 || Peek(input.rest) == 0x45 {
        if !useDouble {
          d', useDouble' := cf.float.ofUint64(value), true;
        }
        var c := input.Take();
        var expMinus := false;
        if Peek(input.rest) == 0x2B {
          c := input.Take();
        } else if Peek(input.rest) == MINUS {
          c := input.Take();
          expMinus := true;
        }
        if !IsDigit(Peek(input.rest)) {
          error := NumberMissExponent;
          return;
        }
        c := input.Take();
        var e: int32 := c - ZERO;
        var tooBig;
        e, tooBig := ReadExponentDigits(input, e, expMinus);
        if tooBig {
          error := NumberTooBig;
        }
        exp := if expMinus then Wrap32(-(e as int)) else e;
      }
    }

    // -------------------------------------------------------------- recursive descent

    method ParseValue(input: InputStream)
      requires error == NoError
      modifies this`events, this`error, input
      ensures Now(input) == ReaderSpec.ParseValue(cf, old(Now(input)))
      decreases |input.rest|, 1
    {
      hide ReaderSpec.ParseNumber, ReaderSpec.ParseString, ReaderSpec.ParseLiteral;
      var c := Peek(input.rest);
      if c == 0x6E {
        ParseLiteral(input, ULL, Null);
      } else if c == 0x74 {
        ParseLiteral(input, RUE, Bool(true));
      } else if c == 0x66 {
        ParseLiteral(input, ALSE, Bool(false));
      } else if c == QUOTE {
        ParseString(input, false);
      } else if c == LCURLY {
        ParseObject(input);
      } else if c == LBRACKET {
        ParseArray(input);
      } else {
        ParseNumber(input);
      }
    }

    method ParseObject(input: InputStream)
      requires error == NoError && input.rest != []
      modifies this`events, this`error, input
      ensures Now(input) == ReaderSpec.ParseObject(cf, old(Now(input)))
      decreases |input.rest|, 0
    {
      hide ReaderSpec.ParseValue, ReaderSpec.ParseString;
      var c := input.Take();
      Notify(input, StartObject);
      if error != NoError {
        return;
      }
      SkipWhitespace(input);
      if Peek(input.rest) == RCURLY {
        c := input.Take();
        Notify(input, EndObject(0));
        return;
      }
      var memberCount: uint32 := 0;
      ghost var goal := ParseMembers(cf, Now(input), 0);
      while true
        invariant error == NoError && |input.rest| < |old(input.rest)|
        invariant ParseMembers(cf, Now(input), memberCount) == goal
        decreases |input.rest|
      {
        if Peek(input.rest) != QUOTE {
          error := ObjectMissName;
          return;
        }
        ParseString(input, true);
        if error != NoError {
          return;
        }
        SkipWhitespace(input);
        c := input.Take();
        if c != COLON {
          error := ObjectMissColon;
          return;
        }
        SkipWhitespace(input);
        ParseValue(input);
        if error != NoError {
          return;
        }
        SkipWhitespace(input);
        memberCount := IncSize(memberCount);
        c := input.Take();
        if c == COMMA {
          SkipWhitespace(input);
        } else if c == RCURLY {
          Notify(input, EndObject(memberCount));
          return;
        } else {
          error := ObjectMissCommaOrCurlyBracket;
          return;
        }
      }
    }

    method ParseArray(input: InputStream)
      requires error == NoError && input.rest != []
      modifies this`events, this`error, input
      ensures Now(input) == ReaderSpec.ParseArray(cf, old(Now(input)))
      decreases |input.rest|, 0
    {
      hide ReaderSpec.ParseValue;
      var c := input.Take();
      Notify(input, StartArray);
      if error != NoError {
        return;
      }
      SkipWhitespace(input);
      if Peek(input.rest) == RBRACKET {
        c := input.Take();
        Notify(input, EndArray(0));
        return;
      }
      var elementCount: uint32 := 0;
      ghost var goal := ParseElements(cf, Now(input), 0);
      while true
        invariant error == NoError && |input.rest| < |old(input.rest)|
        invariant ParseElements(cf, Now(input), elementCount) == goal
        decreases |input.rest|
      {
        ParseValue(input);
        if error != NoError {
          return;
        }
        elementCount := IncSize(elementCount);
        SkipWhitespace(input);
        c := input.Take();
        if c == COMMA {
          SkipWhitespace(input);
        } else if c == RBRACKET {
          Notify(input, EndArray(elementCount));
          return;
        } else {
          error := ArrayMissCommaOrSquareBracket;
          return;
        }
      }
    }

    /** Parse without kParseIterativeFlag. */
    method Parse(input: InputStream)
      requires events == []
      modifies this`events, this`error, this`stack, input
      ensures Now(input) == ParseRecursive(cf, old(input.rest))
      ensures stack == []
    {
      hide ReaderSpec.ParseValue;
      error := NoError;
      SkipWhitespace(input);
      if Peek(input.rest) == 0 {
        error := DocumentEmpty;
      } else {
        ParseValue(input);
        if error == NoError && !cf.stopWhenDone {
          SkipWhitespace(input);
          if Peek(input.rest) != 0 {
            error := DocumentRootNotSingular;
          }
        }
      }
      stack := [];
    }

    // -------------------------------------------------------------- the automaton

    method Push(slot: Slot)
      modifies this`stack
      ensures stack == old(stack) + [slot]
    {
      stack := stack + [slot];
    }

    method Pop() returns (slot: Slot)
      requires stack != []
      modifies this`stack
      ensures slot == old(stack)[|old(stack)| - 1] && stack == old(stack)[..|old(stack)| - 1]
    {
      slot := stack[|stack| - 1];
      stack := stack[..|stack| - 1];
    }

    /** Transit, over the flat stack whose words are the frames. */
    method Transit(input: InputStream, src: State, dst: State, ghost frames: seq<Frame>)
      returns (state: State, ghost frames': seq<Frame>)
      requires stack == Slots(frames) && StackFits(src, frames) && error == NoError && input.rest != []
      requires dst == Predict(src, Tokenize(input.rest[0]))
      modifies this`events, this`error, this`stack, input
      ensures Snapshot(state, frames', Now(input)) == Automaton.Transit(cf, src, dst, frames, old(Now(input)))
      ensures state != Error ==> stack == Slots(frames')
    {
      assert InObject(src) || InArray(src) ==> frames != [];
      hide ReaderSpec.ParseValue, ReaderSpec.ParseString, Open, Close, Emit, Slots, StackFits, Predict, Tokenize;
      frames' := frames;
      match dst {
        case ObjectInitial =>
          state, frames' := OpenBracket(input, src, dst, frames);
        case ArrayInitial =>
          state, frames' := OpenBracket(input, src, dst, frames);
        case MemberKey =>
          ParseString(input, true);
          return if error != NoError then Error else dst, frames;
        case KeyValueDelimiter =>
          var _ := input.Take();
          return dst, frames;
        case MemberValue =>
          ParseValue(input);
          return if error != NoError then Error else dst, frames;
        case Element =>
          ParseValue(input);
          return if error != NoError then Error else dst, frames;
        case SingleValue =>
          ParseValue(input);
          return if error != NoError then Error else Finish, frames;
        case MemberDelimiter =>
          var _ := input.Take();
          frames' := Count(frames);
          return dst, frames';
        case ElementDelimiter =>
          var _ := input.Take();
          frames' := Count(frames);
          return dst, frames';
        case ObjectFinish =>
          state, frames' := CloseBracket(input, src, frames);
        case ArrayFinish =>
          state, frames' := CloseBracket(input, src, frames);
        case _ =>
          return Error, frames;
      }
    }

    /** The event of a bracket, which is taken unless the handler stops the parse. */
    method NotifyAndTake(input: InputStream, e: Event) returns (go: bool)
      requires error == NoError
      modifies this`events, this`error, input
      ensures var s := Emit(cf, old(Now(input)), e);
              go == (s.error == NoError) && Now(input) == if go then Advance(s) else s
    {
      hide Emit;
      Notify(input, e);
      go := error == NoError;
      if go {
        var _ := input.Take();
      }
    }

    method PushFrame(resume: State, ghost frames: seq<Frame>) returns (ghost frames': seq<Frame>)
      requires stack == Slots(frames)
      modifies this`stack
      ensures frames' == frames + [Frame(resume, 0)] && stack == Slots(frames')
    {
      hide Slots;
      frames' := frames + [Frame(resume, 0)];
      PushSlots(frames, Frame(resume, 0));
      Push(StateSlot(resume));
      Push(CountSlot(0));
    }

    method PopFrame(ghost frames: seq<Frame>) returns (count: uint32, resume: State, ghost frames': seq<Frame>)
      requires stack == Slots(frames) && frames != []
      modifies this`stack
      ensures frames == frames' + [Frame(resume, count)] && stack == Slots(frames')
    {
      hide Slots;
      frames' := frames[..|frames| - 1];
      ghost var top := frames[|frames| - 1];
      assert frames == frames' + [top];
      PushSlots(frames', top);
      assert stack == Slots(frames') + [StateSlot(top.resume), CountSlot(top.commas)];
      var slot := Pop();
      count := slot.count;
      slot := Pop();
      resume := slot.state;
    }

    method OpenBracket(input: InputStream, src: State, dst: State, ghost frames: seq<Frame>)
      returns (state: State, ghost frames': seq<Frame>)
      requires stack == Slots(frames) && error == NoError
      modifies this`events, this`error, this`stack, input
      ensures Snapshot(state, frames', Now(input)) == Open(cf, src, dst, frames, old(Now(input)))
      ensures stack == Slots(frames')
    {
      hide Slots, Emit, Resume;
      frames' := PushFrame(Resume(src), frames);
      var go := NotifyAndTake(input, if dst.ObjectInitial? then StartObject else StartArray);
      state := if go then dst else Error;
    }

    method Count(ghost frames: seq<Frame>) returns (ghost frames': seq<Frame>)
      requires stack == Slots(frames) && frames != []
      modifies this`stack
      ensures frames' == Equivalence.CountOne(frames) && stack == Slots(frames')
    {
      var top := stack[|stack| - 1];
      ghost var frame := frames[|frames| - 1];
      ghost var below := frames[..|frames| - 1];
      assert frames == below + [frame];
      PushSlots(below, frame);
      stack := stack[|stack| - 1 := CountSlot(IncSize(top.count))];
      frames' := below + [frame.(commas := IncSize(frame.commas))];
      PushSlots(below, frame.(commas := IncSize(frame.commas)));
    }

    method CloseBracket(input: InputStream, src: State, ghost frames: seq<Frame>)
      returns (state: State, ghost frames': seq<Frame>)
      requires stack == Slots(frames) && StackFits(src, frames) && frames != [] && error == NoError
      modifies this`events, this`error, this`stack, input
      ensures Snapshot(state, frames', Now(input)) == Close(cf, src, frames, old(Now(input)))
      ensures stack == Slots(frames')
    {
      hide StackFits, Slots, Emit;
      var c;
      c, state, frames' := PopFrame(frames);
      if src == MemberValue || src == Element {
        c := IncSize(c);
      }
      if state == Start {
        state := Finish;
      }
      assert frames' == frames[..|frames| - 1];
      var go := NotifyAndTake(input, if InObject(src) then EndObject(c) else EndArray(c));
      if !go {
        state := Error;
      }
    }

    method HandleError(src: State, input: InputStream)
      modifies this`error
      ensures Now(input) == Automaton.HandleError(src, old(Now(input)))
    {
      if error != NoError {
        return;
      }
      match src {
        case Start => error := DocumentEmpty;
        case Finish => error := DocumentRootNotSingular;
        case ObjectInitial => error := ObjectMissName;
        case MemberDelimiter => error := ObjectMissName;
        case MemberKey => error := ObjectMissColon;
        case MemberValue => error := ObjectMissCommaOrCurlyBracket;
        case Element => error := ArrayMissCommaOrSquareBracket;
        case _ => error := UnspecificSyntaxError;
      }
    }

    method IterativeParse(input: InputStream)
      requires events == []
      modifies this`events, this`error, this`stack, input
      ensures Now(input) == ParseIterative(cf, old(input.rest))
      ensures stack == []
    {
      hide Automaton.Transit;
      error := NoError;
      stack := [];
      var state := Start;
      ghost var frames: seq<Frame> := [];
      SkipWhitespace(input);
      while Peek(input.rest) != 0
        invariant StackFits(state, frames) && state != Error && error == NoError && stack == Slots(frames)
        invariant Run(cf, state, frames, Now(input)) == ParseIterative(cf, old(input.rest))
        decreases |input.rest|
      {
        var t := Tokenize(Peek(input.rest));
        var n := Predict(state, t);
        var d;
        d, frames := Transit(input, state, n, frames);
        if d == Error {
          HandleError(state, input);
          break;
        }
        state := d;
        if cf.stopWhenDone && state == Finish {
          break;
        }
        SkipWhitespace(input);
      }
      if state != Finish {
        HandleError(state, input);
      }
      stack := [];
    }
  }
}
