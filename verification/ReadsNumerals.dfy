/** ParseNumber accepts exactly the numbers of section 2.4 of RFC 4627 that are not too big, and tells each of them as the
    integer or the double it stands for (reader.h). */
module ReadsNumerals {
  import opened Streams
  import opened Events
  import opened Numbers
  import opened ReaderSpec
  import opened ReadNumber
  import opened ReadDecimal
  import opened Json

  // ---------------------------------------------------------------- the integer part

  lemma {:induction false} AccumulateFitting(ds: bytes, post: bytes, n: nat, limit: nat, last: byte)
    requires AllDigits(ds) && !IsDigit(Peek(post)) && IsDigit(last) && n <= Max(limit, last)
    ensures var k := Fitting(n, ds, Max(limit, last));
            Accumulate(ds + post, n, limit, last) == Accumulated(ValueFrom(n, ds[..k]), ds[k..] + post, k < |ds|)
    decreases |ds|
  {
    hide ValueFrom, Max;
    if ds == [] {
      assert ds + post == post;
      Nothing(n, ds);
      NothingLeft(n, post, limit, last);
    } else {
      AccumulateOne(ds, post, n, limit, last);
      Nothing(n, ds);
      var n' := n * 10 + (ds[0] - ZERO);
      if n' <= Max(limit, last) {
        AccumulateFitting(ds[1..], post, n', limit, last);
        OneMore(n, ds, Fitting(n', ds[1..], Max(limit, last)));
      }
    }
  }

  lemma NothingLeft(n: nat, post: bytes, limit: nat, last: byte)
    requires !IsDigit(Peek(post)) && IsDigit(last) && n <= Max(limit, last)
    ensures Accumulate(post, n, limit, last) == Accumulated(n, post, false)
  {
  }

  lemma {:induction false} FittingTwice(n: nat, ds: bytes, max: nat, max': nat)
    requires AllDigits(ds) && max <= max'
    ensures var k := Fitting(n, ds, max);
            Fitting(n, ds, max') == k + Fitting(ValueFrom(n, ds[..k]), ds[k..], max')
    decreases |ds|
  {
    hide ValueFrom;
    Nothing(n, ds);
    if ds != [] && n * 10 + (ds[0] - ZERO) <= max {
      var n' := n * 10 + (ds[0] - ZERO);
      FittingTwice(n', ds[1..], max, max');
      OneMore(n, ds, Fitting(n', ds[1..], max));
    }
  }

  lemma {:induction false} FittingAll(n: nat, ds: bytes, max: nat)
    requires AllDigits(ds) && n <= max
    ensures Fitting(n, ds, max) == |ds| <==> ValueFrom(n, ds) <= max
    ensures ValueFrom(n, ds[..Fitting(n, ds, max)]) <= max
    decreases |ds|
  {
    Nothing(n, ds);
    if ds != [] {
      var n' := n * 10 + (ds[0] - ZERO);
      ValueGrows(n', ds[1..]);
      if n' <= max {
        FittingAll(n', ds[1..], max);
        OneMore(n, ds, Fitting(n', ds[1..], max));
      }
    }
  }

  lemma {:induction false} BigDigitsAre(fl: FloatOps, n: Number, ds: bytes, post: bytes)
    requires AllDigits(ds) && !IsDigit(Peek(post)) && n.rest == ds + post && n.error == NoError
    ensures if NeverTooBig(fl, n.d, ds) then BigDigits(fl, n) == n.(rest := post, d := Appended(fl, n.d, ds))
            else BigDigits(fl, n).error == NumberTooBig
    decreases |ds|
  {
    if ds == [] {
      assert ds + post == post;
    } else {
      TakeFront(ds, post);
      if !fl.tooBig(n.d) {
        BigDigitsAre(fl, n.(rest := ds[1..] + post, d := fl.appendDigit(n.d, ds[0] - ZERO)), ds[1..], post);
      }
    }
  }

  function LargestInt(minus: bool): nat {
    if minus then 0x8000_0000 else 0xFFFF_FFFF
  }

  lemma Limits(minus: bool)
    ensures Max(IntLimit(minus), LastDigit(minus)) == LargestInt(minus)
    ensures Max(Int64Limit(minus), LastDigit(minus)) == LargestMagnitude(minus)
  {
  }

  /** The two accumulators, one after the other, behind the first digit. */
  lemma TwoWords(minus: bool, n: nat, ds: bytes, post: bytes)
    requires AllDigits(ds) && n <= 9 && !IsDigit(Peek(post))
    ensures var k := Fitting(n, ds, LargestMagnitude(minus)); var v := ValueFrom(n, ds[..k]);
            var a := Accumulate(ds + post, n, IntLimit(minus), LastDigit(minus));
            if ValueFrom(n, ds) <= LargestInt(minus) then a == Accumulated(ValueFrom(n, ds), post, false) && k == |ds|
            else a.full && a.value <= LargestInt(minus)
                 && Accumulate(a.rest, a.value, Int64Limit(minus), LastDigit(minus)) == Accumulated(v, ds[k..] + post, k < |ds|)
  {
    hide Accumulate, ValueFrom, Fitting, IntLimit, Int64Limit, LastDigit;
    var max, max' := LargestInt(minus), LargestMagnitude(minus);
    Limits(minus);
    AccumulateFitting(ds, post, n, IntLimit(minus), LastDigit(minus));
    FittingAll(n, ds, max);
    FittingTwice(n, ds, max, max');
    var k := Fitting(n, ds, max);
    var v := ValueFrom(n, ds[..k]);
    AccumulateFitting(ds[k..], post, v, Int64Limit(minus), LastDigit(minus));
    var j := Fitting(v, ds[k..], max');
    InTwoRuns(n, ds, k, j);
    assert ds[k..][j..] == ds[k + j..];
    assert ds[|ds|..] + post == post && ds[..|ds|] == ds;
    if k == |ds| {
      FittingAll(v, ds[k..], max');
    }
  }

  lemma ReadsWholePart(fl: FloatOps, minus: bool, whole: bytes, post: bytes)
    requires ValidWhole(whole) && (whole == [ZERO] || !IsDigit(Peek(post)))
    ensures var k := Fitting(0, whole, LargestMagnitude(minus)); var v := ValueFrom(0, whole[..k]);
            var r := ParseInteger(fl, whole + post, minus);
            if k == |whole| then r == Number(post, v, v > LargestInt(minus), false, fl.ofUint64(0), NoError)
            else if NeverTooBig(fl, fl.ofUint64(v), whole[k..]) then
              r == Number(post, v, true, true, Appended(fl, fl.ofUint64(v), whole[k..]), NoError)
            else r.error == NumberTooBig
  {
    hide ParseInteger, ValueFrom, Fitting, Appended, NeverTooBig;
    if whole[0] == ZERO {
      ReadsZero(fl, minus, whole, post);
    } else {
      FirstFits(minus, whole);
      ReadsNonZero(fl, minus, whole, post);
    }
  }

  lemma ReadsNonZero(fl: FloatOps, minus: bool, whole: bytes, post: bytes)
    requires AllDigits(whole) && whole != [] && whole[0] != ZERO && !IsDigit(Peek(post))
    ensures var first, ds := whole[0] - ZERO, whole[1..];
            var k := Fitting(first, ds, LargestMagnitude(minus)); var v := ValueFrom(first, ds[..k]);
            var r := ParseInteger(fl, whole + post, minus);
            if k == |ds| then r == Number(post, v, v > LargestInt(minus), false, fl.ofUint64(0), NoError)
            else if NeverTooBig(fl, fl.ofUint64(v), ds[k..]) then
              r == Number(post, v, true, true, Appended(fl, fl.ofUint64(v), ds[k..]), NoError)
            else r.error == NumberTooBig
  {
    hide ParseInteger, Accumulate, BigDigits, ValueFrom, IntLimit, Int64Limit, LastDigit, Fitting, Appended, NeverTooBig,
      Peek, Next;
    var first, ds := whole[0] - ZERO, whole[1..];
    Limits(minus);
    TwoWords(minus, first, ds, post);
    TakeFront(whole, post);
    WholeRun(ds, post);
    var a := Accumulate(ds + post, first, IntLimit(minus), LastDigit(minus));
    if a.full {
      var b := Accumulate(a.rest, a.value, Int64Limit(minus), LastDigit(minus));
      NonZeroInteger(fl, whole + post, minus, a, b);
      var k := Fitting(first, ds, LargestMagnitude(minus));
      BigDigitsAre(fl, Number(b.rest, b.value, true, true, fl.ofUint64(b.value), NoError), ds[k..], post);
    } else {
      NonZeroInteger(fl, whole + post, minus, a, a);
    }
  }

  lemma WholeRun(ds: bytes, post: bytes)
    ensures ds[|ds|..] + post == post && ds[..|ds|] == ds
  {
  }

  lemma ReadsZero(fl: FloatOps, minus: bool, whole: bytes, post: bytes)
    requires whole == [ZERO]
    ensures Fitting(0, whole, LargestMagnitude(minus)) == 1 && ValueFrom(0, whole[..1]) == 0
    ensures ParseInteger(fl, whole + post, minus) == Number(post, 0, false, false, fl.ofUint64(0), NoError)
  {
    ZeroInteger(fl, minus, post);
    assert whole[..1] == whole && whole[1..] == [];
  }

  /** The first digit always fits. */
  lemma FirstFits(minus: bool, whole: bytes)
    requires AllDigits(whole) && whole != []
    ensures var first, ds := whole[0] - ZERO, whole[1..]; var k := Fitting(first, ds, LargestMagnitude(minus));
            && Fitting(0, whole, LargestMagnitude(minus)) == 1 + k
            && ValueFrom(0, whole[..1 + k]) == ValueFrom(first, ds[..k]) && whole[1 + k..] == ds[k..]
            && ValueFrom(0, whole) == ValueFrom(first, ds)
  {
    hide ValueFrom, Fitting, LargestMagnitude;
    var first, ds := whole[0] - ZERO, whole[1..];
    var k := Fitting(first, ds, LargestMagnitude(minus));
    ValueOfFirst(whole);
    OneMore(0, whole, k);
    FirstDigitFits(whole, LargestMagnitude(minus));
    assert LargestMagnitude(minus) >= 9 by { NineFits(minus); }
  }

  lemma NineFits(minus: bool)
    ensures LargestMagnitude(minus) >= 9
  {
  }

  lemma FirstDigitFits(whole: bytes, max: nat)
    requires AllDigits(whole) && whole != []
    ensures max >= 9 ==> Fitting(0, whole, max) == 1 + Fitting(whole[0] - ZERO, whole[1..], max)
  {
    assert 0 * 10 + (whole[0] - ZERO) == whole[0] - ZERO;
  }

  // ---------------------------------------------------------------- the fraction

  lemma {:induction false} FractionBitsAre(f: Fraction, ds: bytes, post: bytes)
    requires AllDigits(ds) && !IsDigit(Peek(post)) && f.rest == ds + post && f.value < 0x1_0000_0000_0000_0000
    ensures var k := FittingFraction(f.value, ds); var v := ValueFrom(f.value, ds[..k]);
            v < 0x1_0000_0000_0000_0000 && FractionBits(f) == Fraction(v, f.d, ds[k..] + post, Wrap32(f.exp - k))
    decreases |ds|
  {
    hide Wrap32, ValueFrom, Peek, Next;
    Nothing(f.value, ds);
    WrapInt(f.exp);
    assert ds[0..] == ds;
    if ds == [] {
      assert ds + post == post;
    } else {
      TakeFront(ds, post);
      var value := f.value * 10 + (ds[0] - ZERO);
      if f.value * 10 + 9 <= LARGEST_WORD {
        var g := f.(value := value, rest := ds[1..] + post, exp := Wrap32(f.exp - 1));
        FractionBitsAre(g, ds[1..], post);
        var k := FittingFraction(value, ds[1..]);
        OneMore(f.value, ds, k);
        WrapStep(f.exp, -1, -(k as int));
      }
    }
  }

  lemma {:induction false} FractionDigitsAre(fl: FloatOps, f: Fraction, ds: bytes, post: bytes)
    requires AllDigits(ds) && !IsDigit(Peek(post)) && f.rest == ds + post
    ensures FractionDigits(fl, f) == f.(d := Appended(fl, f.d, ds), rest := post, exp := Wrap32(f.exp - |ds|))
    decreases |ds|
  {
    hide Wrap32, Peek, Next;
    if ds == [] {
      WrapInt(f.exp);
      assert ds + post == post;
    } else {
      TakeFront(ds, post);
      FractionDigitsAre(fl, f.(d := fl.appendDigit(f.d, ds[0] - ZERO), rest := ds[1..] + post, exp := Wrap32(f.exp - 1)),
                        ds[1..], post);
      WrapStep(f.exp, -1, 1 - |ds|);
    }
  }

  lemma ReadsFractionPart(fl: FloatOps, n: Number, fs: bytes, post: bytes)
    requires AllDigits(fs) && n.rest == FractionText(fs) + post && n.value < 0x1_0000_0000_0000_0000
    requires if fs == [] then Peek(post) != DOT else !IsDigit(Peek(post))
    ensures fs == [] ==> ParseFraction(fl, n) == (n, 0)
    ensures fs != [] ==>
              var exp := Wrap32(-|fs|); var error := if exp == 0 then NumberMissFraction else NoError;
              var k := FittingFraction(n.value, fs); var v := ValueFrom(n.value, fs[..k]);
              ParseFraction(fl, n) ==
                (if n.useDouble then Number(post, n.value, n.use64bit, true, Appended(fl, n.d, fs), error)
                 else Number(post, v, n.use64bit, true, Appended(fl, fl.ofUint64(v), fs[k..]), error), exp)
  {
    hide FractionBits, FractionDigits, ValueFrom, Wrap32, FittingFraction, Appended, Next, FractionText;
    if fs == [] {
      NoFractionText(post);
    } else {
      PointIsTaken(fs, post);
      if n.useDouble {
        FractionDigitsAre(fl, Fraction(n.value, n.d, fs + post, 0), fs, post);
      } else {
        var k := FittingFraction(n.value, fs);
        var v := ValueFrom(n.value, fs[..k]);
        FractionBitsAre(Fraction(n.value, n.d, fs + post, 0), fs, post);
        FractionDigitsAre(fl, Fraction(v, fl.ofUint64(v), fs[k..] + post, Wrap32(0 - k)), fs[k..], post);
        WrapStep(0, -(k as int), k - |fs|);
      }
    }
  }

  lemma NoFractionText(post: bytes)
    ensures FractionText([]) + post == post
  {
  }

  // ---------------------------------------------------------------- the whole number

  /** What ParseExponent makes of a power or of none. */
  lemma ReadsPowerPart(fl: FloatOps, n: Number, p: Power, post: bytes)
    requires ValidPower(p) && n.rest == PowerText(p) + post && n.error == NoError
    requires if p.Power? then !IsDigit(Peek(post)) else Peek(post) != 0x65 && Peek(post) != 0x45
    ensures p.NoPower? ==> ParseExponent(fl, n) == (n, 0) && n.rest == post
    ensures p.Power? ==>
              var d := if n.useDouble then n.d else fl.ofUint64(n.value);
              if PowerValue(p) <= LARGEST_POWER then
                ParseExponent(fl, n) == (Number(post, n.value, n.use64bit, true, d, NoError), Wrap32(PowerValue(p)))
              else ParseExponent(fl, n).0.error == NumberTooBig
  {
    if p.Power? {
      hide ParseExponent, PowerText, PowerValue, Wrap32, Peek;
      PowerIs(fl, n, p, post);
    } else {
      assert PowerText(p) + post == post;
    }
  }

  lemma TailStops(n: Numeral, post: bytes)
    requires ValidNumeral(n) && Stops(n, post)
    ensures var tail := PowerText(n.power) + post;
            && (if n.fraction == [] then Peek(tail) != DOT else !IsDigit(Peek(tail)))
            && (n.whole == [ZERO] || !IsDigit(Peek(FractionText(n.fraction) + tail)))
            && (if n.power.Power? then !IsDigit(Peek(post)) else Peek(post) != 0x65 && Peek(post) != 0x45)
  {
  }

  lemma SignOf(n: Numeral, post: bytes)
    requires ValidNumeral(n)
    ensures var text := NumeralText(n) + post; var tail := n.whole + (FractionText(n.fraction) + (PowerText(n.power) + post));
            (Peek(text) == MINUS <==> n.minus) && (if n.minus then Next(text) else text) == tail
  {
    hide FractionText, PowerText;
    var behind := FractionText(n.fraction) + PowerText(n.power);
    Associate(n.whole, behind, post);
    Associate(FractionText(n.fraction), PowerText(n.power), post);
    var tail := n.whole + (behind + post);
    if n.minus {
      Associate([MINUS], n.whole + behind, post);
      TakeFront([MINUS], tail);
      assert [MINUS][1..] + tail == tail;
    } else {
      assert [] + (n.whole + behind) == n.whole + behind;
    }
  }

  /** Every number is read: as what it says if it is accepted, and otherwise as an error. */
  lemma ReadsNumeral(cf: Config, n: Numeral, post: bytes, events: seq<Event>)
    requires ValidNumeral(n) && Stops(n, post)
    ensures var r := ParseNumber(cf, Progress(NumeralText(n) + post, events, NoError));
            if Accepted(cf.float, n) then r == Emit(cf, Progress(post, events, NoError), NumeralEvent(cf.float, n))
            else r.events == events
                 && r.error == if WholeAccepted(cf.float, n) && !FractionAccepted(n) then NumberMissFraction else NumberTooBig
  {
    hide ParseInteger, ParseFraction, ParseExponent, ParseNumber, ValueFrom, Emit, PowerText, FractionText, PowerValue,
      NumeralText, Peek, Next, Accepted, NumeralEvent, Stops, ValidWhole, Appended, NeverTooBig, InWord, IsWhole,
      WholeAccepted, FractionAccepted;
    var fl, tail := cf.float, PowerText(n.power) + post;
    var text := NumeralText(n) + post;
    var s := Progress(text, events, NoError);
    SignOf(n, post);
    TailStops(n, post);
    AcceptedIs(fl, n);
    ReadsWholePart(fl, n.minus, n.whole, FractionText(n.fraction) + tail);
    var n1 := ParseInteger(fl, n.whole + (FractionText(n.fraction) + tail), n.minus);
    WholeOf(fl, n, n1, FractionText(n.fraction) + tail);
    if n1.error != NoError {
      StopsAtInteger(cf, s, n.minus, n1);
    } else {
      ReadsTail(cf, n, s, n1, post);
    }
  }

  /** From the fraction on. */
  lemma ReadsTail(cf: Config, n: Numeral, s: Progress, n1: Number, post: bytes)
    requires ValidNumeral(n) && Stops(n, post) && s.error == NoError && (Peek(s.rest) == MINUS <==> n.minus)
    requires n1 == ParseInteger(cf.float, if n.minus then Next(s.rest) else s.rest, n.minus) && n1.error == NoError
    requires WholeAccepted(cf.float, n) && IsWhole(cf.float, n, n1)
    requires n1.rest == FractionText(n.fraction) + (PowerText(n.power) + post)
    ensures var r := ParseNumber(cf, s);
            if Accepted(cf.float, n) then r == Emit(cf, s.(rest := post), NumeralEvent(cf.float, n))
            else r.events == s.events && r.error == if FractionAccepted(n) then NumberTooBig else NumberMissFraction
  {
    hide ParseInteger, ParseFraction, ParseExponent, ParseNumber, ValueFrom, Emit, PowerText, FractionText, PowerValue,
      Peek, Next, Accepted, NumeralEvent, NumberEvent, Stops, ValidWhole, Appended, WholeAccepted, InWord, IsWhole,
      IsSignificand, FittingFraction;
    var fl, tail := cf.float, PowerText(n.power) + post;
    TailStops(n, post);
    AcceptedIs(fl, n);
    ReadsFractionPart(fl, n1, n.fraction, tail);
    var n2, expFrac := ParseFraction(fl, n1).0, ParseFraction(fl, n1).1;
    FractionOf(fl, n, n1, n2, expFrac, tail);
    if n2.error != NoError {
      NoFractionAtAll(cf, s, n.minus, n1, n2);
    } else {
      ReadsPowerPart(fl, n2, n.power, post);
      var n3, exp := ParseExponent(fl, n2).0, ParseExponent(fl, n2).1;
      InThreeParts(cf, s, n.minus, n1, n2, expFrac, n3, exp);
      PowerOf(fl, n, n2, n3, expFrac, exp, post);
    }
  }

  lemma StopsAtInteger(cf: Config, s: Progress, minus: bool, n: Number)
    requires s.error == NoError && (Peek(s.rest) == MINUS <==> minus)
    requires n == ParseInteger(cf.float, if minus then Next(s.rest) else s.rest, minus) && n.error != NoError
    ensures ParseNumber(cf, s) == Progress(n.rest, s.events, n.error)
  {
    hide ParseInteger;
  }

  /** Whether the first digits are what the number says of them. */
  predicate IsWhole(fl: FloatOps, n: Numeral, n1: Number)
    requires ValidNumeral(n)
  {
    if InWord(n) == |n.whole| then
      !n1.useDouble && n1.value == ValueFrom(0, n.whole) && n1.use64bit == (n1.value > LargestInt(n.minus))
    else n1.useDouble && n1.d == WholeDouble(fl, n)
  }

  lemma WholeOf(fl: FloatOps, n: Numeral, n1: Number, rest: bytes)
    requires ValidNumeral(n)
    requires var k := Fitting(0, n.whole, LargestMagnitude(n.minus)); var v := ValueFrom(0, n.whole[..k]);
             if k == |n.whole| then n1 == Number(rest, v, v > LargestInt(n.minus), false, fl.ofUint64(0), NoError)
             else if NeverTooBig(fl, fl.ofUint64(v), n.whole[k..]) then
               n1 == Number(rest, v, true, true, Appended(fl, fl.ofUint64(v), n.whole[k..]), NoError)
             else n1.error == NumberTooBig
    ensures n1.error == if WholeAccepted(fl, n) then NoError else NumberTooBig
    ensures n1.error == NoError ==> IsWhole(fl, n, n1) && n1.rest == rest
    ensures n1.error == NoError ==> n1.value < 0x1_0000_0000_0000_0000
  {
    hide ValueFrom, Appended;
    var k := InWord(n);
    FittingAll(0, n.whole, LargestMagnitude(n.minus));
    if k == |n.whole| {
      assert n.whole[..k] == n.whole && n.whole[k..] == [];
    }
  }

  /** Whether the digits behind the point are what the number says of them, too. */
  predicate IsSignificand(fl: FloatOps, n: Numeral, n2: Number)
    requires ValidNumeral(n)
  {
    if n.fraction == [] then IsWhole(fl, n, n2) else n2.useDouble && n2.d == Significand(fl, n)
  }

  lemma FractionOf(fl: FloatOps, n: Numeral, n1: Number, n2: Number, expFrac: int32, rest: bytes)
    requires ValidNumeral(n) && IsWhole(fl, n, n1) && n1.error == NoError && n1.rest == FractionText(n.fraction) + rest
    requires n.fraction == [] ==> (n2, expFrac) == (n1, 0)
    requires n.fraction != [] ==>
               var exp := Wrap32(-|n.fraction|); var error := if exp == 0 then NumberMissFraction else NoError;
               var k := FittingFraction(n1.value, n.fraction); var v := ValueFrom(n1.value, n.fraction[..k]);
               (n2, expFrac) ==
                 (if n1.useDouble then Number(rest, n1.value, n1.use64bit, true, Appended(fl, n1.d, n.fraction), error)
                  else Number(rest, v, n1.use64bit, true, Appended(fl, fl.ofUint64(v), n.fraction[k..]), error), exp)
    ensures expFrac == Wrap32(-|n.fraction|) && n2.rest == rest
    ensures n2.error == if FractionAccepted(n) then NoError else NumberMissFraction
    ensures IsSignificand(fl, n, n2)
  {
    hide ValueFrom, Appended, FittingFraction;
    WrapsToNone(|n.fraction|);
    NoFractionText(rest);
  }

  lemma WrapsToNone(n: nat)
    ensures Wrap32(-(n as int)) == 0 <==> n % 0x1_0000_0000 == 0
    ensures Wrap32(0) == 0
  {
    assert (-(n as int)) % 0x1_0000_0000 == 0 <==> n % 0x1_0000_0000 == 0;
  }

  lemma PowerOf(fl: FloatOps, n: Numeral, n2: Number, n3: Number, expFrac: int32, exp: int32, post: bytes)
    requires ValidNumeral(n) && WholeAccepted(fl, n) && FractionAccepted(n) && IsSignificand(fl, n, n2) && n2.error == NoError
    requires expFrac == Wrap32(-|n.fraction|)
    requires n.power.NoPower? ==> (n3, exp) == (n2, 0) && n2.rest == post
    requires n.power.Power? ==>
               var d := if n2.useDouble then n2.d else fl.ofUint64(n2.value);
               if PowerValue(n.power) <= LARGEST_POWER then
                 (n3, exp) == (Number(post, n2.value, n2.use64bit, true, d, NoError), Wrap32(PowerValue(n.power)))
               else n3.error == NumberTooBig
    requires n3.value < 0x1_0000_0000_0000_0000 && (n3.useDouble || n3.use64bit || n3.value < 0x1_0000_0000)
    ensures n3.error == if Accepted(fl, n) then NoError else NumberTooBig
    ensures n3.error == NoError ==> n3.rest == post && NumberEvent(fl, n3, n.minus, exp, expFrac) == NumeralEvent(fl, n)
  {
    hide ValueFrom, Appended, NeverTooBig, Fitting, FittingFraction, Wrap32, NumberEvent, NumeralEvent, Accepted, Significand,
      WholeDouble, PowerValue;
    AcceptedIs(fl, n);
    WrapsToNone(0);
    if n3.error == NoError {
      if n3.useDouble {
        if !n2.useDouble || n.fraction == [] {
          NoFractionSignificand(fl, n);
        }
        DoubleSays(fl, n, n3, exp, expFrac);
      } else {
        IntegerSays(fl, n, n3);
      }
    }
  }

  lemma AcceptedIs(fl: FloatOps, n: Numeral)
    requires ValidNumeral(n)
    ensures Accepted(fl, n) <==> WholeAccepted(fl, n) && FractionAccepted(n) && PowerValue(n.power) <= LARGEST_POWER
    ensures n.power.NoPower? ==> PowerValue(n.power) == 0
  {
  }

  /** Without a fraction the significand is the whole part. */
  lemma NoFractionSignificand(fl: FloatOps, n: Numeral)
    requires ValidNumeral(n) && n.fraction == []
    ensures Significand(fl, n) ==
              if InWord(n) == |n.whole| then fl.ofUint64(ValueFrom(0, n.whole)) else WholeDouble(fl, n)
  {
    hide WholeDouble, InWord;
    Nothing(ValueFrom(0, n.whole), []);
  }

  lemma DoubleSays(fl: FloatOps, n: Numeral, n3: Number, exp: int32, expFrac: int32)
    requires ValidNumeral(n) && n3.useDouble && n3.d == Significand(fl, n)
    requires n3.value < 0x1_0000_0000_0000_0000
    requires exp == Wrap32(PowerValue(n.power)) && expFrac == Wrap32(-|n.fraction|)
    requires n.fraction != [] || n.power.Power? || InWord(n) < |n.whole|
    ensures NumberEvent(fl, n3, n.minus, exp, expFrac) == NumeralEvent(fl, n)
  {
    hide Significand, Wrap32, PowerValue, ValueFrom, Fitting;
    FittingAll(0, n.whole, LargestMagnitude(n.minus));
  }

  lemma IntegerSays(fl: FloatOps, n: Numeral, n3: Number)
    requires ValidNumeral(n) && n.fraction == [] && n.power.NoPower? && InWord(n) == |n.whole|
    requires !n3.useDouble && n3.value == ValueFrom(0, n.whole) && n3.use64bit == (n3.value > LargestInt(n.minus))
    requires n3.value < 0x1_0000_0000_0000_0000 && (n3.use64bit || n3.value < 0x1_0000_0000)
    ensures NumberEvent(fl, n3, n.minus, 0, 0) == NumeralEvent(fl, n)
  {
    hide ValueFrom, NumberEvent, Significand, Fitting;
    FittingAll(0, n.whole, LargestMagnitude(n.minus));
    IntegerEvent(fl, n3, n.minus);
  }

  // ---------------------------------------------------------------- what was read without an error

  /** The digits a text begins with. */
  lemma {:induction false} DigitsThen(text: bytes) returns (ds: bytes, rest: bytes)
    ensures text == ds + rest && AllDigits(ds) && !IsDigit(Peek(rest))
    ensures ds == [] <==> !IsDigit(Peek(text))
    ensures ds != [] ==> ds[0] == text[0]
  {
    if text == [] || !IsDigit(text[0]) {
      ds, rest := [], text;
      assert text == [] + text;
    } else {
      var ds', rest' := DigitsThen(text[1..]);
      ds, rest := [text[0]] + ds', rest';
      assert text == [text[0]] + text[1..];
    }
  }

  lemma TellsWhole(fl: FloatOps, text: bytes, minus: bool) returns (whole: bytes, rest: bytes)
    requires ParseInteger(fl, text, minus).error == NoError
    ensures text == whole + rest && ValidWhole(whole) && (whole == [ZERO] || !IsDigit(Peek(rest)))
  {
    if Peek(text) == ZERO {
      whole, rest := [ZERO], text[1..];
      assert text == [ZERO] + text[1..];
    } else {
      whole, rest := DigitsThen(text);
    }
  }

  /** A point without a digit behind it. */
  lemma PointAlone(fl: FloatOps, n: Number)
    requires Peek(n.rest) == DOT && !IsDigit(Peek(Next(n.rest))) && n.value < 0x1_0000_0000_0000_0000
    ensures ParseFraction(fl, n).0.error == NumberMissFraction
  {
  }

  lemma TellsFraction(fl: FloatOps, n: Number) returns (fs: bytes, rest: bytes)
    requires n.value < 0x1_0000_0000_0000_0000 && ParseFraction(fl, n).0.error == NoError
    ensures n.rest == FractionText(fs) + rest && AllDigits(fs)
    ensures if fs == [] then Peek(rest) != DOT else !IsDigit(Peek(rest))
  {
    hide ParseFraction;
    if Peek(n.rest) == DOT {
      fs, rest := DigitsThen(Next(n.rest));
      if fs == [] {
        PointAlone(fl, n);
        assert false;
      } else {
        assert n.rest == [DOT] + (fs + rest);
      }
    } else {
      fs, rest := [], n.rest;
      assert n.rest == [] + n.rest;
    }
  }

  /** An e without a digit behind it and its sign. */
  lemma LetterAlone(fl: FloatOps, n: Number)
    requires Peek(n.rest) == 0x65 || Peek(n.rest) == 0x45
    requires var sign := Peek(Next(n.rest));
             !IsDigit(Peek(if sign == PLUS || sign == MINUS then Next(Next(n.rest)) else Next(n.rest)))
    ensures ParseExponent(fl, n).0.error == NumberMissExponent
  {
  }

  lemma TellsPower(fl: FloatOps, n: Number) returns (p: Power, rest: bytes)
    requires ParseExponent(fl, n).0.error == NoError
    ensures n.rest == PowerText(p) + rest && ValidPower(p)
    ensures if p.Power? then !IsDigit(Peek(rest)) else Peek(rest) != 0x65 && Peek(rest) != 0x45
  {
    hide ParseExponent;
    var c := Peek(n.rest);
    if c == 0x65 || c == 0x45 {
      var sign := Peek(Next(n.rest));
      var signed := sign == PLUS || sign == MINUS;
      var behind := if signed then Next(Next(n.rest)) else Next(n.rest);
      var ds;
      ds, rest := DigitsThen(behind);
      if ds == [] {
        LetterAlone(fl, n);
        assert false;
      } else {
        p := Power(c, if signed then [sign] else [], ds);
        LetterAndSign(n.rest, c, if signed then [sign] else [], ds, rest);
      }
    } else {
      p, rest := NoPower, n.rest;
      assert n.rest == [] + n.rest;
    }
  }

  lemma LetterAndSign(text: bytes, c: byte, sign: bytes, ds: bytes, rest: bytes)
    requires c != 0 && Peek(text) == c
    requires if sign == [] then Next(text) == ds + rest
             else |sign| == 1 && sign[0] != 0 && Peek(Next(text)) == sign[0] && Next(Next(text)) == ds + rest
    ensures text == [c] + sign + ds + rest
  {
    hide Next;
    HeadAndNext(text);
    if sign == [] {
      InTwo([c], ds, rest);
    } else {
      HeadAndNext(Next(text));
      assert sign == [sign[0]];
      InThree([c], sign, ds, rest);
    }
  }

  lemma HeadAndNext(s: bytes)
    requires Peek(s) != 0
    ensures s == [Peek(s)] + Next(s)
  {
  }

  lemma InTwo(a: bytes, b: bytes, c: bytes)
    ensures a + [] + b + c == a + (b + c)
  {
  }

  lemma InThree(a: bytes, b: bytes, c: bytes, d: bytes)
    ensures a + b + c + d == a + (b + (c + d))
  {
  }

  lemma PartsSucceed(cf: Config, s: Progress)
    requires s.error == NoError && ParseNumber(cf, s).error == NoError
    ensures var minus := Peek(s.rest) == MINUS;
            var n1 := ParseInteger(cf.float, if minus then Next(s.rest) else s.rest, minus);
            && n1.error == NoError && ParseFraction(cf.float, n1).0.error == NoError
            && ParseExponent(cf.float, ParseFraction(cf.float, n1).0).0.error == NoError
  {
    hide ParseInteger, ParseFraction, ParseExponent, NumberEvent;
  }

  /** Whatever is read as a number without an error is a number that ends there. */
  lemma TellsNumeral(cf: Config, s: Progress) returns (n: Numeral, post: bytes)
    requires s.error == NoError && ParseNumber(cf, s).error == NoError
    ensures ValidNumeral(n) && Stops(n, post) && s.rest == NumeralText(n) + post
    ensures Accepted(cf.float, n)
    ensures ParseNumber(cf, s) == Emit(cf, s.(rest := post), NumeralEvent(cf.float, n))
  {
    hide ParseInteger, ParseFraction, ParseExponent, ParseNumber, NumeralText, FractionText, PowerText, Accepted, NumeralEvent,
      Emit, Stops, Appended, NeverTooBig, Fitting, FittingFraction, ValueFrom, Wrap32;
    var fl, minus := cf.float, Peek(s.rest) == MINUS;
    PartsSucceed(cf, s);
    var text := if minus then Next(s.rest) else s.rest;
    var whole, rest1 := TellsWhole(fl, text, minus);
    ReadsWholePart(fl, minus, whole, rest1);
    var n1 := ParseInteger(fl, text, minus);
    var fs, rest2 := TellsFraction(fl, n1);
    ReadsFractionPart(fl, n1, fs, rest2);
    var p;
    var n2 := ParseFraction(fl, n1).0;
    if fs == [] {
      NoFractionText(rest2);
    }
    assert n2.rest == rest2;
    p, post := TellsPower(fl, n2);
    n := Numeral(minus, whole, fs, p);
    Assembled(s.rest, n, rest1, rest2, post);
    ReadsNumeral(cf, n, post, s.events);
  }

  lemma Assembled(text: bytes, n: Numeral, rest1: bytes, rest2: bytes, post: bytes)
    requires ValidNumeral(n) && (n.minus <==> Peek(text) == MINUS)
    requires (if n.minus then Next(text) else text) == n.whole + rest1 && (n.whole == [ZERO] || !IsDigit(Peek(rest1)))
    requires rest1 == FractionText(n.fraction) + rest2
    requires if n.fraction == [] then Peek(rest2) != DOT else !IsDigit(Peek(rest2))
    requires rest2 == PowerText(n.power) + post
    requires if n.power.Power? then !IsDigit(Peek(post)) else Peek(post) != 0x65 && Peek(post) != 0x45
    ensures text == NumeralText(n) + post && Stops(n, post)
  {
    TextAssembled(text, n, rest1, rest2, post);
    if n.power.NoPower? {
      assert rest2 == post;
      if n.fraction == [] {
        assert rest1 == post;
      }
    }
  }

  lemma TextAssembled(text: bytes, n: Numeral, rest1: bytes, rest2: bytes, post: bytes)
    requires ValidNumeral(n) && (n.minus <==> Peek(text) == MINUS)
    requires (if n.minus then Next(text) else text) == n.whole + rest1
    requires rest1 == FractionText(n.fraction) + rest2 && rest2 == PowerText(n.power) + post
    ensures text == NumeralText(n) + post
  {
    hide FractionText, PowerText;
    var f, p := FractionText(n.fraction), PowerText(n.power);
    Associate(f, p, post);
    Associate(n.whole, f + p, post);
    if n.minus {
      Associate([MINUS], n.whole + (f + p), post);
      assert text == [MINUS] + Next(text);
    } else {
      assert [] + (n.whole + (f + p)) == n.whole + (f + p);
    }
  }
}
