/** ParseNumber reports exactly what is wrong with a number (reader.h). */
module BadNumbers {
  import opened Streams
  import opened Events
  import opened Numbers
  import opened ReaderSpec
  import opened ReadDecimal
  import opened Json
  import opened ReadsNumerals
  import opened Faults

  // ---------------------------------------------------------------- what is wrong is reported

  lemma MinusFails(cf: Config, tail: bytes, events: seq<Event>)
    requires !IsDigit(Peek(tail))
    ensures var r := ParseNumber(cf, Progress([MINUS] + tail, events, NoError));
            r.error == ValueInvalid && r.events == events
  {
    hide ParseFraction, ParseExponent, NumberEvent;
    TakeFront([MINUS], tail);
    assert [MINUS][1..] + tail == tail;
  }

  /** The number up to where the point or the letter stands, in its three parts. */
  lemma FrontOf(n: Numeral, tail: bytes)
    requires ValidNumeral(n) && n.power.NoPower?
    ensures var text := NumeralText(n) + tail; var digits := n.whole + (FractionText(n.fraction) + tail);
            (Peek(text) == MINUS <==> n.minus) && (if n.minus then Next(text) else text) == digits
  {
    hide NumeralText, FractionText;
    SignOf(n, tail);
    assert PowerText(n.power) + tail == tail;
  }

  lemma PointFails(cf: Config, n: Numeral, tail: bytes, events: seq<Event>)
    requires ValidNumeral(n) && n.fraction == [] && n.power.NoPower? && !IsDigit(Peek(tail))
    ensures var r := ParseNumber(cf, Progress(NumeralText(n) + ([DOT] + tail), events, NoError));
            r.events == events && r.error == if WholeAccepted(cf.float, n) then NumberMissFraction else NumberTooBig
  {
    hide ParseInteger, ParseFraction, ParseExponent, ParseNumber, ValueFrom, NumeralText, Appended, NeverTooBig, InWord,
      IsWhole, WholeAccepted, ValidWhole;
    var fl, behind := cf.float, [DOT] + tail;
    var s := Progress(NumeralText(n) + behind, events, NoError);
    FrontOf(n, behind);
    NoFractionText(behind);
    PointIsFirst(tail);
    ReadsWholePart(fl, n.minus, n.whole, behind);
    var n1 := ParseInteger(fl, n.whole + behind, n.minus);
    WholeOf(fl, n, n1, behind);
    if n1.error != NoError {
      StopsAtInteger(cf, s, n.minus, n1);
    } else {
      PointAlone(fl, n1);
      NoFractionAtAll(cf, s, n.minus, n1, ParseFraction(fl, n1).0);
    }
  }

  lemma PointIsFirst(tail: bytes)
    ensures Peek([DOT] + tail) == DOT && Next([DOT] + tail) == tail && !IsDigit(DOT)
  {
    TakeFront([DOT], tail);
    assert [DOT][1..] + tail == tail;
  }

  lemma LetterIsFirst(letter: byte, sign: bytes, tail: bytes)
    requires (letter == 0x65 || letter == 0x45) && !IsDigit(Peek(tail))
    requires sign == [PLUS] || sign == [MINUS] || (sign == [] && Peek(tail) != PLUS && Peek(tail) != MINUS)
    ensures var text := [letter] + (sign + tail);
            Peek(text) == letter && !IsDigit(letter) && letter != DOT && NoDigitBehind(text)
  {
    var text := [letter] + (sign + tail);
    assert text[1..] == sign + tail;
    if sign == [] {
      assert sign + tail == tail;
    } else {
      assert (sign + tail)[1..] == tail;
    }
  }

  lemma LetterFails(cf: Config, n: Numeral, letter: byte, sign: bytes, tail: bytes, events: seq<Event>)
    requires ValidNumberFault(cf, NoExponent(n, letter, sign, tail))
    ensures var r := ParseNumber(cf, Progress(NumeralText(n) + ([letter] + (sign + tail)), events, NoError));
            r.events == events
            && r.error == if !WholeAccepted(cf.float, n) then NumberTooBig
                          else if !FractionAccepted(n) then NumberMissFraction else NumberMissExponent
  {
    hide ParseInteger, ParseFraction, ParseExponent, ParseNumber, ValueFrom, NumeralText, FractionText, Appended, NeverTooBig,
      InWord, IsWhole, WholeAccepted, FractionAccepted, ValidWhole;
    var fl, behind := cf.float, [letter] + (sign + tail);
    var s := Progress(NumeralText(n) + behind, events, NoError);
    FrontOf(n, behind);
    LetterIsFirst(letter, sign, tail);
    FractionIsFirst(n.fraction, behind);
    ReadsWholePart(fl, n.minus, n.whole, FractionText(n.fraction) + behind);
    var n1 := ParseInteger(fl, n.whole + (FractionText(n.fraction) + behind), n.minus);
    WholeOf(fl, n, n1, FractionText(n.fraction) + behind);
    if n1.error != NoError {
      StopsAtInteger(cf, s, n.minus, n1);
    } else {
      LetterBehind(cf, n, s, n1, behind);
    }
  }

  predicate NoDigitBehind(text: bytes) {
    var c := Peek(Next(text));
    !IsDigit(Peek(if c == PLUS || c == MINUS then Next(Next(text)) else Next(text)))
  }

  lemma LetterBehind(cf: Config, n: Numeral, s: Progress, n1: Number, behind: bytes)
    requires ValidNumeral(n) && n.power.NoPower? && s.error == NoError && (Peek(s.rest) == MINUS <==> n.minus)
    requires n1 == ParseInteger(cf.float, if n.minus then Next(s.rest) else s.rest, n.minus) && n1.error == NoError
    requires IsWhole(cf.float, n, n1) && n1.rest == FractionText(n.fraction) + behind
    requires (Peek(behind) == 0x65 || Peek(behind) == 0x45) && NoDigitBehind(behind)
    ensures var r := ParseNumber(cf, s);
            r.events == s.events && r.error == if !FractionAccepted(n) then NumberMissFraction else NumberMissExponent
  {
    hide ParseInteger, ParseFraction, ParseExponent, ParseNumber, ValueFrom, FractionText, Appended, NeverTooBig,
      InWord, IsWhole, FractionAccepted, ValidWhole, IsSignificand, FittingFraction, Next, Peek;
    var fl := cf.float;
    ReadsFractionPart(fl, n1, n.fraction, behind);
    var n2, expFrac := ParseFraction(fl, n1).0, ParseFraction(fl, n1).1;
    FractionOf(fl, n, n1, n2, expFrac, behind);
    if n2.error != NoError {
      NoFractionAtAll(cf, s, n.minus, n1, n2);
    } else {
      LetterAlone(fl, n2);
      InThreeParts(cf, s, n.minus, n1, n2, expFrac, ParseExponent(fl, n2).0, ParseExponent(fl, n2).1);
    }
  }

  lemma FractionIsFirst(fs: bytes, behind: bytes)
    requires !IsDigit(Peek(behind))
    ensures !IsDigit(Peek(FractionText(fs) + behind))
  {
    assert [] + behind == behind;
  }

  /** Whatever is wrong with a number, the error says so. */
  lemma NumberFails(cf: Config, f: NumberFault, events: seq<Event>)
    requires ValidNumberFault(cf, f)
    ensures var r := ParseNumber(cf, Progress(NumberFaultText(f), events, NoError));
            r.events == events && r.error == NumberFaultCode(cf, f)
    ensures Peek(NumberFaultText(f)) == MINUS || IsDigit(Peek(NumberFaultText(f)))
  {
    hide ParseNumber, NumeralText, WholeAccepted, FractionAccepted, ValidNumeral, Stops, PowerValue;
    match f
    case Refused(n, tail) =>
      ReadsNumeral(cf, n, tail, events);
      StartsAsNumber(n, tail);
    case NoFraction(n, tail) =>
      PointFails(cf, n, tail, events);
      StartsAsNumber(n, [DOT] + tail);
    case NoExponent(n, letter, sign, tail) =>
      LetterFails(cf, n, letter, sign, tail, events);
      StartsAsNumber(n, [letter] + (sign + tail));
    case MinusAlone(tail) =>
      MinusFails(cf, tail, events);
  }

  lemma StartsAsNumber(n: Numeral, tail: bytes)
    requires ValidNumeral(n)
    ensures var c := Peek(NumeralText(n) + tail); c == MINUS || IsDigit(c)
  {
    hide FractionText, PowerText;
  }

  // ---------------------------------------------------------------- every text that looks like a number

  datatype Judged = Right(n: Numeral, post: bytes) | Wrong(f: NumberFault)

  ghost predicate Judges(cf: Config, j: Judged, s: bytes) {
    match j
    case Right(n, post) => ValidNumeral(n) && Accepted(cf.float, n) && Stops(n, post) && s == NumeralText(n) + post
    case Wrong(f) => ValidNumberFault(cf, f) && s == NumberFaultText(f)
  }

  /** Every text that begins like a number is one, sound or not. */
  lemma EveryNumber(cf: Config, s: bytes) returns (j: Judged)
    requires Peek(s) == MINUS || IsDigit(Peek(s))
    ensures Judges(cf, j, s)
  {
    hide NumeralText, Accepted, ValidWhole, FractionText, PowerText, Stops, Judges;
    var minus := Peek(s) == MINUS;
    var text := if minus then Next(s) else s;
    if !IsDigit(Peek(text)) {
      j := Wrong(MinusAlone(text));
      MinusIs(cf, s);
    } else {
      var whole, rest := WholeInFront(text);
      var n := Numeral(minus, whole, [], NoPower);
      NoFractionText(rest);
      if Peek(rest) != DOT {
        j := EveryPower(cf, s, n, rest, rest);
      } else {
        var fs, rest2 := DigitsThen(Next(rest));
        if fs == [] {
          j := Wrong(NoFraction(n, Next(rest)));
          PointIs(cf, s, n, rest);
        } else {
          PointThen(rest, fs, rest2);
          j := EveryPower(cf, s, n.(fraction := fs), rest, rest2);
        }
      }
    }
  }

  lemma MinusIs(cf: Config, s: bytes)
    requires Peek(s) == MINUS && !IsDigit(Peek(Next(s)))
    ensures Judges(cf, Wrong(MinusAlone(Next(s))), s)
  {
    assert s == [MINUS] + Next(s);
  }

  lemma PointThen(rest: bytes, fs: bytes, rest2: bytes)
    requires Peek(rest) == DOT && Next(rest) == fs + rest2 && fs != []
    ensures rest == FractionText(fs) + rest2
  {
    assert rest == [DOT] + (fs + rest2);
  }

  lemma PointIs(cf: Config, s: bytes, n: Numeral, rest: bytes)
    requires ValidNumeral(n) && n.fraction == [] && n.power.NoPower? && Peek(rest) == DOT && !IsDigit(Peek(Next(rest)))
    requires (n.minus <==> Peek(s) == MINUS) && (if n.minus then Next(s) else s) == n.whole + rest
    ensures Judges(cf, Wrong(NoFraction(n, Next(rest))), s)
  {
    hide NumeralText, FractionText, PowerText, Next, ValidNumeral;
    NoFractionText(rest);
    NoPowerText(rest);
    TextAssembled(s, n, rest, rest, rest);
    HeadAndNext(rest);
  }

  lemma NoPowerText(rest: bytes)
    ensures PowerText(NoPower) + rest == rest
  {
  }

  /** Whether a number without an exponent stands in front of `rest2`, and its fraction in front of that. */
  predicate InFront(s: bytes, n: Numeral, rest1: bytes, rest2: bytes) {
    && ValidNumeral(n) && n.power.NoPower? && (n.minus <==> Peek(s) == MINUS)
    && (if n.minus then Next(s) else s) == n.whole + rest1 && (n.whole == [ZERO] || !IsDigit(Peek(rest1)))
    && rest1 == FractionText(n.fraction) + rest2
    && if n.fraction == [] then Peek(rest2) != DOT else !IsDigit(Peek(rest2))
  }

  /** The rest of it, from where the exponent would begin. */
  lemma EveryPower(cf: Config, s: bytes, n: Numeral, rest1: bytes, rest2: bytes) returns (j: Judged)
    requires InFront(s, n, rest1, rest2)
    ensures Judges(cf, j, s)
  {
    hide InFront, Judges;
    var c := Peek(rest2);
    if c != 0x65 && c != 0x45 {
      j := WithoutPower(cf, s, n, rest1, rest2);
    } else {
      var next := Peek(Next(rest2));
      var sign: bytes := if next == PLUS || next == MINUS then [next] else [];
      var ds, post := DigitsThen(if sign == [] then Next(rest2) else Next(Next(rest2)));
      LetterAndSign(rest2, c, sign, ds, post);
      if ds == [] {
        InParts(c, sign, post);
        j := Wrong(NoExponent(n, c, sign, post));
        LetterIs(cf, s, n, rest1, rest2, j.f);
      } else {
        j := WithPower(cf, s, n, rest1, rest2, Power(c, sign, ds), post);
      }
    }
  }

  lemma WithoutPower(cf: Config, s: bytes, n: Numeral, rest1: bytes, rest2: bytes) returns (j: Judged)
    requires InFront(s, n, rest1, rest2) && Peek(rest2) != 0x65 && Peek(rest2) != 0x45
    ensures Judges(cf, j, s)
  {
    hide NumeralText, Accepted, ValidWhole, FractionText, PowerText, Stops;
    NoPowerText(rest2);
    Assembled(s, n, rest1, rest2, rest2);
    j := if Accepted(cf.float, n) then Right(n, rest2) else Wrong(Refused(n, rest2));
  }

  lemma LetterIs(cf: Config, s: bytes, n: Numeral, rest1: bytes, rest2: bytes, f: NumberFault)
    requires InFront(s, n, rest1, rest2) && f.NoExponent? && f.n == n && rest2 == [f.letter] + (f.sign + f.tail)
    requires (f.letter == 0x65 || f.letter == 0x45) && !IsDigit(Peek(f.tail))
    requires f.sign == [PLUS] || f.sign == [MINUS] || (f.sign == [] && Peek(f.tail) != PLUS && Peek(f.tail) != MINUS)
    ensures Judges(cf, Wrong(f), s)
  {
    hide NumeralText, ValidWhole, FractionText, PowerText;
    NoPowerText(rest2);
    TextAssembled(s, n, rest1, rest2, rest2);
  }

  lemma WithPower(cf: Config, s: bytes, n: Numeral, rest1: bytes, rest2: bytes, p: Power, post: bytes) returns (j: Judged)
    requires InFront(s, n, rest1, rest2) && p.Power? && ValidPower(p) && !IsDigit(Peek(post))
    requires rest2 == [p.letter] + p.sign + p.digits + post
    ensures Judges(cf, j, s)
  {
    hide NumeralText, Accepted, ValidWhole, FractionText, PowerText, Stops;
    var n' := n.(power := p);
    PowerTextIs(p);
    Assembled(s, n', rest1, rest2, post);
    j := if Accepted(cf.float, n') then Right(n', post) else Wrong(Refused(n', post));
  }

  lemma PowerTextIs(p: Power)
    requires p.Power?
    ensures PowerText(p) == [p.letter] + p.sign + p.digits
  {
  }

  lemma InParts(c: byte, sign: bytes, post: bytes)
    ensures [c] + sign + [] + post == [c] + (sign + post)
  {
  }

  lemma WholeInFront(text: bytes) returns (whole: bytes, rest: bytes)
    requires IsDigit(Peek(text))
    ensures text == whole + rest && ValidWhole(whole) && (whole == [ZERO] || !IsDigit(Peek(rest)))
  {
    if Peek(text) == ZERO {
      whole, rest := [ZERO], text[1..];
      assert text == [ZERO] + text[1..];
    } else {
      whole, rest := DigitsThen(text);
    }
  }
}
