/** ParseNumber on decimals: the significand and the power of ten it hands to the floating-point conversion are exactly
    those of the text (reader.h), so the text Prettify makes of a double is read as the number it was made of. */
module ReadDecimal {
  import opened Streams
  import opened Events
  import opened Numbers
  import opened ReaderSpec
  import opened ReadNumber
  import opened Json
  import Grisu
  import Prettify

  const INT_MAX: int := 0x7FFF_FFFF

  lemma {:induction false} ReadsFraction(f: Fraction, fs: bytes, post: bytes)
    requires AllDigits(fs) && !IsDigit(Peek(post)) && f.rest == fs + post && f.value < 0x1_0000_0000_0000_0000
    requires fs != [] ==> ValueFrom(f.value, fs) / 10 < LIMIT_UINT64
    ensures FractionBits(f) == Fraction(ValueFrom(f.value, fs), f.d, post, Wrap32(f.exp - |fs|))
    decreases |fs|
  {
    hide Wrap32, Peek, Next;
    if fs == [] {
      WrapInt(f.exp);
      assert f.rest == post;
    } else {
      WrapStep(f.exp, -1, 1 - |fs|);
      TakeFront(fs, post);
      var value := f.value * 10 + (fs[0] - ZERO);
      ValueGrows(value, fs[1..]);
      if |fs| > 1 {
        LongerIsLarger(value, fs[1..]);
      }
      ReadsFraction(f.(value := value, rest := fs[1..] + post, exp := Wrap32(f.exp - 1)), fs[1..], post);
    }
  }

  lemma LongerIsLarger(n: nat, ds: bytes)
    requires AllDigits(ds) && ds != []
    ensures ValueFrom(n, ds) / 10 >= n
  {
    ValueGrows(n * 10 + (ds[0] - ZERO), ds[1..]);
  }

  /** A wrapped int is off by a multiple of 2^32, which later wrapping does not see. */
  lemma WrapIs(x: int) returns (q: int)
    ensures Wrap32(x) == x - q * 0x1_0000_0000
  {
    q := x / 0x1_0000_0000 + if x % 0x1_0000_0000 < 0x8000_0000 then 0 else 1;
  }

  lemma WrapSame(x: int, q: int)
    ensures Wrap32(x + q * 0x1_0000_0000) == Wrap32(x)
  {
    assert (x + q * 0x1_0000_0000) % 0x1_0000_0000 == x % 0x1_0000_0000;
  }

  lemma WrapInt(x: int32)
    ensures Wrap32(x) == x
  {
  }

  lemma WrapSmall(n: int)
    requires 0 <= n < 4000
    ensures Wrap32(n) == n && Wrap32(-n) == -n
  {
  }

  /** Wrapping now and then comes to wrapping at the end. */
  lemma WrapStep(x: int, y: int, z: int)
    ensures Wrap32(Wrap32(x + y) + z) == Wrap32(x + y + z)
  {
    hide Wrap32;
    var q := WrapIs(x + y);
    WrapSame(x + y + z, -q);
  }

  lemma WrapDigit(n: int, d: nat)
    ensures Wrap32(Wrap32(n) * 10 + d) == Wrap32(n * 10 + d)
  {
    hide Wrap32;
    var q := WrapIs(n);
    WrapSame(n * 10 + d, -10 * q);
  }

  lemma WrapNegated(n: int)
    ensures Wrap32(-(Wrap32(n) as int)) == Wrap32(-n)
  {
    hide Wrap32;
    var q := WrapIs(n);
    WrapSame(-n, q);
  }

  /** The digits of an exponent after `n`: after a minus sign, the int that accumulates them wraps. */
  lemma {:induction false} ReadsPower(e: Exponent, n: nat, es: bytes, post: bytes, minus: bool)
    requires AllDigits(es) && !IsDigit(Peek(post)) && e.rest == es + post && !e.tooBig
    requires e.value == Wrap32(n) && (minus || n <= LARGEST_POWER)
    ensures var r := ExponentDigits(e, minus);
            if minus || ValueFrom(n, es) <= LARGEST_POWER then r == Exponent(Wrap32(ValueFrom(n, es)), post, false)
            else r.tooBig
    decreases |es|
  {
    hide Wrap32;
    if es == [] {
      assert e.rest == post;
    } else {
      TakeFront(es, post);
      var value := n * 10 + (es[0] - ZERO);
      WrapDigit(n, es[0] - ZERO);
      ValueGrows(value, es[1..]);
      if !minus {
        WrapSmall(value);
      }
      if minus || value <= LARGEST_POWER {
        ReadsPower(Exponent(Wrap32(value), es[1..] + post, false), value, es[1..], post, minus);
      }
    }
  }

  /** Whether the int never wraps while it accumulates these digits. */
  predicate StaysInt(n: nat, es: bytes)
    requires AllDigits(es)
    decreases |es|
  {
    n <= INT_MAX && (es == [] || StaysInt(n * 10 + (es[0] - ZERO), es[1..]))
  }

  lemma {:induction false} StaysIntIs(n: nat, es: bytes)
    requires AllDigits(es)
    ensures StaysInt(n, es) <==> ValueFrom(n, es) <= INT_MAX
    decreases |es|
  {
    ValueGrows(n, es);
    if es != [] {
      StaysIntIs(n * 10 + (es[0] - ZERO), es[1..]);
    }
  }

  /** The integer part in front of a fraction or an exponent. */
  lemma ReadsWhole(fl: FloatOps, minus: bool, whole: bytes, post: bytes)
    requires AllDigits(whole) && whole != [] && (whole[0] == ZERO ==> |whole| == 1) && !IsDigit(Peek(post))
    requires FitsInt64(minus, ValueFrom(0, whole))
    ensures var n := ParseInteger(fl, whole + post, minus);
            n.rest == post && n.value == ValueFrom(0, whole) && !n.useDouble && n.error == NoError
  {
    ParseIntegerDigits(fl, minus, whole, post);
  }

  lemma FractionIs(fl: FloatOps, n: Number, fs: bytes, post: bytes)
    requires AllDigits(fs) && fs != [] && n.rest == FractionText(fs) + post && !IsDigit(Peek(post))
    requires n.value < 0x1_0000_0000_0000_0000 && !n.useDouble && ValueFrom(n.value, fs) / 10 < LIMIT_UINT64
    ensures var v := ValueFrom(n.value, fs);
            var exp := Wrap32(-|fs|);
            var error := if exp == 0 then NumberMissFraction else NoError;
            ParseFraction(fl, n) == (Number(post, v, n.use64bit, true, fl.ofUint64(v), error), exp)
  {
    hide FractionBits, FractionDigits, ValueFrom, Peek, Next, FractionText;
    PointIsTaken(fs, post);
    ReadsFraction(Fraction(n.value, n.d, fs + post, 0), fs, post);
    var v := ValueFrom(n.value, fs);
    NoMoreDigits(fl, Fraction(v, fl.ofUint64(v), post, Wrap32(-|fs|)));
  }

  lemma PointIsTaken(fs: bytes, post: bytes)
    requires fs != []
    ensures Peek(FractionText(fs) + post) == DOT && Next(FractionText(fs) + post) == fs + post
  {
    assert FractionText(fs) + post == [DOT] + (fs + post);
  }

  lemma NoMoreDigits(fl: FloatOps, f: Fraction)
    requires !IsDigit(Peek(f.rest))
    ensures FractionDigits(fl, f) == f
  {
  }

  lemma PowerIs(fl: FloatOps, n: Number, p: Power, post: bytes)
    requires ValidPower(p) && p.Power? && n.rest == PowerText(p) + post && !IsDigit(Peek(post)) && n.error == NoError
    ensures var d := if n.useDouble then n.d else fl.ofUint64(n.value);
            var r := ParseExponent(fl, n);
            if PowerValue(p) <= LARGEST_POWER then
              r == (Number(post, n.value, n.use64bit, true, d, NoError), Wrap32(PowerValue(p)))
            else r.0.error == NumberTooBig
  {
    hide Peek, Next, PowerText, ExponentDigits, ValueFrom;
    PowerIsTaken(p, post);
    var digits := p.digits;
    var first := digits[0] - ZERO;
    ReadsPower(Exponent(first, digits[1..] + post, false), first, digits[1..], post, p.sign == [MINUS]);
    ValueOfFirst(digits);
    WrapNegated(ValueFrom(0, digits));
  }

  /** The letter, the sign and the first digit of an exponent. */
  lemma PowerIsTaken(p: Power, post: bytes)
    requires ValidPower(p) && p.Power?
    ensures var rest := PowerText(p) + post; var sign := Peek(Next(rest));
            && Peek(rest) == p.letter && (sign == MINUS <==> p.sign == [MINUS])
            && (if sign == PLUS || sign == MINUS then Next(Next(rest)) else Next(rest)) == p.digits + post
            && Peek(p.digits + post) == p.digits[0] && Next(p.digits + post) == p.digits[1..] + post
  {
    var behind := p.digits + post;
    assert PowerText(p) + post == [p.letter] + (p.sign + behind);
    TakeFront([p.letter], p.sign + behind);
    assert [p.letter][1..] + (p.sign + behind) == p.sign + behind;
    TakeFront(p.digits, post);
    if p.sign == [] {
      assert p.sign + behind == behind;
    } else {
      TakeFront(p.sign, behind);
      assert p.sign[1..] + behind == behind;
    }
  }

  /** The power of ten these steps scale by. */
  function TotalPower(exp: int32, expFrac: int32): int {
    var sum := Wrap32(exp + expFrac);
    if sum < -308 then exp + expFrac else sum
  }

  /** The ints a decimal leaves give its own power of ten exactly when that is one and the digits of the fraction can be
      counted in one. */
  lemma PowerIsExact(p: Power, fs: bytes)
    requires ValidPower(p) && PowerValue(p) <= LARGEST_POWER
    ensures TotalPower(Wrap32(PowerValue(p)), Wrap32(-|fs|)) == PowerValue(p) - |fs|
            <==> |fs| <= INT_MAX + 1 && PowerValue(p) - |fs| >= -INT_MAX - 1
  {
    hide PowerValue, TotalPower, Wrap32;
    PowersAre(PowerValue(p), |fs|);
  }

  lemma PowersAre(x: int, n: int)
    requires x <= LARGEST_POWER && n >= 0
    ensures TotalPower(Wrap32(x), Wrap32(-n)) == x - n <==> n <= INT_MAX + 1 && x - n >= -INT_MAX - 1
  {
    hide Wrap32;
    var a := WrapIs(x);
    var b := WrapIs(-n);
    var exp: int, expFrac: int := Wrap32(x), Wrap32(-n);
    var c := WrapIs(exp + expFrac);
    assert exp == x - a * 0x1_0000_0000;
    assert expFrac == -n - b * 0x1_0000_0000;
    assert Wrap32(exp + expFrac) == x - n - (a + b + c) * 0x1_0000_0000;
  }

  /** A number with a fraction or an exponent, whose digits fit an unsigned 64-bit integer, becomes the double of exactly
      these digits, scaled by its exponent and the digits of its fraction as two ints hold them; it is too big exactly
      when its exponent is above 308. */
  lemma DecimalIsRead(cf: Config, minus: bool, whole: bytes, fs: bytes, p: Power, post: bytes, events: seq<Event>)
    requires AllDigits(whole) && whole != [] && (whole[0] == ZERO ==> |whole| == 1)
    requires AllDigits(fs) && ValidPower(p) && (fs != [] || p.Power?) && EndsInteger(post)
    requires AllDigits(whole + fs) && FitsInt64(minus, ValueFrom(0, whole))
    requires fs != [] ==> ValueFrom(0, whole + fs) / 10 < LIMIT_UINT64
    ensures var v := ValueFrom(0, whole + fs);
            var expFrac := Wrap32(-|fs|);
            var d := Scaled(cf.float, cf.float.ofUint64(v), Wrap32(PowerValue(p)), expFrac);
            var r := ParseNumber(cf, Progress(Spelled(minus, whole, FractionText(fs) + PowerText(p) + post), events, NoError));
            if fs != [] && expFrac == 0 then r.error == NumberMissFraction && r.events == events
            else if PowerValue(p) <= LARGEST_POWER then
              r == Emit(cf, Progress(post, events, NoError), Double(if minus then cf.float.negate(d) else d))
            else r.error == NumberTooBig && r.events == events
  {
    hide ParseInteger, ParseFraction, ParseExponent, ParseNumber, ValueFrom, Emit, PowerText, FractionText, PowerValue,
      Spelled, Peek, Next;
    var fl := cf.float;
    var behind := FractionText(fs) + PowerText(p) + post;
    var s := Progress(Spelled(minus, whole, behind), events, NoError);
    SignIsTaken(minus, whole, behind);
    EndsParts(fs, p, post);
    ReadsWhole(fl, minus, whole, behind);
    ValueOfConcat(0, whole, fs);
    var n := ParseInteger(fl, whole + behind, minus);
    var f, expFrac := AfterWhole(fl, n, fs, p, post);
    if f.error != NoError {
      NoFractionAtAll(cf, s, minus, n, f);
    } else {
      var e, exp := AfterFraction(fl, f, p, post);
      InThreeParts(cf, s, minus, n, f, expFrac, e, exp);
    }
  }

  /** The double of 1, scaled by nothing, is what 1e-4294967296 is read as: its exponent has wrapped to 0. */
  lemma TinyIsReadAsOne(cf: Config, post: bytes, events: seq<Event>)
    requires EndsInteger(post)
    ensures var text := [0x31, 0x65, MINUS] + Decimal(0x1_0000_0000);
            var d := cf.float.scale(cf.float.ofUint64(1), 0);
            ParseNumber(cf, Progress(text + post, events, NoError)) == Emit(cf, Progress(post, events, NoError), Double(d))
  {
    hide ParseNumber, Emit, Decimal, ValueFrom, Scaled, PowerText, FractionText, Spelled, PowerValue, Wrap32;
    var p := Power(0x65, [MINUS], Decimal(0x1_0000_0000));
    TinyPower(p, post);
    assert [0x31] + [] == [0x31];
    DecimalIsRead(cf, false, [0x31], [], p, post, events);
    ScaledByNothing(cf.float);
  }

  lemma TinyPower(p: Power, post: bytes)
    requires p == Power(0x65, [MINUS], Decimal(0x1_0000_0000))
    ensures ValidPower(p) && PowerValue(p) == -0x1_0000_0000 && Wrap32(PowerValue(p)) == 0
    ensures ValueFrom(0, [0x31]) == 1
    ensures Spelled(false, [0x31], FractionText([]) + PowerText(p) + post)
            == [0x31, 0x65, MINUS] + Decimal(0x1_0000_0000) + post
  {
    hide Decimal;
    ValueOfDecimal(0x1_0000_0000);
    OneAndPower(Decimal(0x1_0000_0000), post);
  }

  lemma OneAndPower(ds: bytes, post: bytes)
    ensures [] + [0x31] + ([] + ([0x65] + [MINUS] + ds) + post) == [0x31, 0x65, MINUS] + ds + post
  {
  }

  lemma ScaledByNothing(fl: FloatOps)
    ensures Scaled(fl, fl.ofUint64(1), 0, Wrap32(-0)) == fl.scale(fl.ofUint64(1), 0)
  {
  }

  lemma AfterWhole(fl: FloatOps, n: Number, fs: bytes, p: Power, post: bytes) returns (f: Number, expFrac: int32)
    requires AllDigits(fs) && ValidPower(p) && (fs != [] || p.Power?) && EndsInteger(post)
    requires n.rest == FractionText(fs) + PowerText(p) + post && !n.useDouble && n.error == NoError
    requires n.value < 0x1_0000_0000_0000_0000 && (fs != [] ==> ValueFrom(n.value, fs) / 10 < LIMIT_UINT64)
    ensures (f, expFrac) == ParseFraction(fl, n) && expFrac == Wrap32(-|fs|)
    ensures f.error == if fs != [] && expFrac == 0 then NumberMissFraction else NoError
    ensures f.rest == PowerText(p) + post && f.value == ValueFrom(n.value, fs)
    ensures if fs == [] then f == n else f.useDouble && f.d == fl.ofUint64(f.value)
  {
    hide ParseFraction, PowerText, FractionText, Peek;
    EndsParts(fs, p, post);
    if fs == [] {
      NoFraction(fl, n, p, post);
    } else {
      assert n.rest == FractionText(fs) + (PowerText(p) + post);
      FractionIs(fl, n, fs, PowerText(p) + post);
    }
    f, expFrac := ParseFraction(fl, n).0, ParseFraction(fl, n).1;
  }

  lemma AfterFraction(fl: FloatOps, f: Number, p: Power, post: bytes) returns (e: Number, exp: int32)
    requires ValidPower(p) && EndsInteger(post) && f.rest == PowerText(p) + post && f.error == NoError
    requires if f.useDouble then f.d == fl.ofUint64(f.value) else p.Power?
    ensures (e, exp) == ParseExponent(fl, f)
    ensures if PowerValue(p) <= LARGEST_POWER then
              exp == Wrap32(PowerValue(p)) && e == Number(post, f.value, f.use64bit, true, fl.ofUint64(f.value), NoError)
            else e.error == NumberTooBig
  {
    hide ParseExponent, PowerText;
    if p.Power? {
      PowerIs(fl, f, p, post);
    } else {
      NoExponent(fl, f, p, post);
    }
    e, exp := ParseExponent(fl, f).0, ParseExponent(fl, f).1;
  }

  lemma InThreeParts(cf: Config, s: Progress, minus: bool, n: Number, f: Number, expFrac: int32, e: Number, exp: int32)
    requires s.error == NoError && (Peek(s.rest) == MINUS <==> minus)
    requires n == ParseInteger(cf.float, if minus then Next(s.rest) else s.rest, minus) && n.error == NoError
    requires (f, expFrac) == ParseFraction(cf.float, n) && f.error == NoError
    requires (e, exp) == ParseExponent(cf.float, f)
    ensures ParseNumber(cf, s) ==
              if e.error != NoError then Progress(e.rest, s.events, e.error)
              else Emit(cf, s.(rest := e.rest), NumberEvent(cf.float, e, minus, exp, expFrac))
  {
    hide ParseInteger, ParseFraction, ParseExponent;
  }

  lemma NoFractionAtAll(cf: Config, s: Progress, minus: bool, n: Number, f: Number)
    requires s.error == NoError && (Peek(s.rest) == MINUS <==> minus)
    requires n == ParseInteger(cf.float, if minus then Next(s.rest) else s.rest, minus) && n.error == NoError
    requires f == ParseFraction(cf.float, n).0 && f.error != NoError
    ensures ParseNumber(cf, s) == Progress(f.rest, s.events, f.error)
  {
    hide ParseInteger, ParseFraction, ParseExponent;
  }

  lemma SignIsTaken(minus: bool, whole: bytes, behind: bytes)
    requires whole != [] && IsDigit(whole[0])
    ensures var text := Spelled(minus, whole, behind);
            (Peek(text) == MINUS <==> minus) && (if minus then Next(text) else text) == whole + behind
  {
    var text := Spelled(minus, whole, behind);
    if minus {
      assert text == [MINUS] + (whole + behind);
    } else {
      assert text == whole + behind;
    }
  }

  lemma EndsParts(fs: bytes, p: Power, post: bytes)
    requires ValidPower(p) && EndsInteger(post)
    ensures !IsDigit(Peek(FractionText(fs) + PowerText(p) + post)) && !IsDigit(Peek(PowerText(p) + post))
    ensures p.Power? ==> PowerText(p) + post != [] && Peek(PowerText(p) + post) == p.letter
    ensures p.NoPower? ==> PowerText(p) + post == post
  {
  }

  lemma NoFraction(fl: FloatOps, n: Number, p: Power, post: bytes)
    requires ValidPower(p) && p.Power? && n.rest == FractionText([]) + PowerText(p) + post
    requires n.value < 0x1_0000_0000_0000_0000
    ensures ParseFraction(fl, n) == (n, 0) && n.rest == PowerText(p) + post
  {
    assert FractionText([]) + PowerText(p) + post == PowerText(p) + post;
  }

  lemma NoExponent(fl: FloatOps, n: Number, p: Power, post: bytes)
    requires p.NoPower? && n.rest == PowerText(p) + post && EndsInteger(post)
    ensures ParseExponent(fl, n) == (n, 0) && n.rest == post
  {
    assert [] + post == post;
  }

  // ---------------------------------------------------------------- what Prettify wrote

  /** The exponent part WriteExponent writes. */
  function PowerOf(x: int): (p: Power)
    ensures ValidPower(p) && PowerText(p) == [0x65] + DecimalInt(x)
  {
    Power(0x65, if x < 0 then [MINUS] else [], Decimal(if x < 0 then -x else x))
  }

  lemma PowerOfValue(x: int)
    ensures PowerValue(PowerOf(x)) == x
  {
    ValueOfDecimal(if x < 0 then -x else x);
  }

  const TEN_17: nat := 100_000_000_000_000_000

  lemma {:induction false} ShortIsSmall(ds: bytes)
    requires AllDigits(ds)
    ensures ValueFrom(0, ds) < Grisu.Pow10(|ds|)
  {
    if ds != [] {
      var init, last := ds[..|ds| - 1], ds[|ds| - 1];
      assert ds == init + [last];
      ShortIsSmall(init);
      ValueOfAppend(0, init, last);
    }
  }

  lemma {:induction false} Pow10Grows(m: nat, n: nat)
    requires m <= n
    ensures Grisu.Pow10(m) <= Grisu.Pow10(n)
    decreases n
  {
    if m < n {
      Pow10Grows(m, n - 1);
    }
  }

  lemma Pow10Of18()
    ensures Grisu.Pow10(17) == TEN_17 && Grisu.Pow10(18) == 10 * TEN_17
  {
    Grisu.SmallPowers();
    assert Grisu.Pow10(12) == 1000 * Grisu.Pow10(9);
    assert Grisu.Pow10(15) == 1000 * Grisu.Pow10(12);
    assert Grisu.Pow10(17) == 100 * Grisu.Pow10(15);
  }

  lemma FewDigits(ds: bytes, n: nat)
    requires AllDigits(ds) && |ds| <= n && (n == 17 || n == 18)
    ensures ValueFrom(0, ds) < if n == 17 then TEN_17 else 10 * TEN_17
  {
    ShortIsSmall(ds);
    Pow10Grows(|ds|, n);
    Pow10Of18();
  }

  /** Up to 17 digits, the first of them not zero. */
  predicate FewDigitsOnly(ds: bytes) {
    AllDigits(ds) && 0 < |ds| <= 17 && ds[0] != ZERO
  }

  /** Whether a layout leaves room for its digits in the significand: all do but some that write out 19 to 21 digits in
      front of the point. */
  predicate Fits(ds: bytes, k: int32)
    requires FewDigitsOnly(ds)
  {
    0 <= k <= 21 - |ds| ==> ValueFrom(0, ds + Prettify.Zeros(k)) < LIMIT_UINT64
  }

  /** The parts of a text: digits, digits of a fraction and the power x, if they are not all there is. */
  predicate Parts(text: bytes, whole: bytes, fs: bytes, p: Power, x: int) {
    && text == whole + FractionText(fs) + PowerText(p)
    && AllDigits(whole) && whole != [] && (whole[0] == ZERO ==> |whole| == 1) && AllDigits(fs)
    && (fs != [] || p.Power?) && (p.Power? ==> p == PowerOf(x))
    && AllDigits(whole + fs) && ValueFrom(0, whole) < LIMIT_UINT64 && ValueFrom(0, whole + fs) / 10 < LIMIT_UINT64
  }

  /** Whether the ints that count such a fraction and hold such a power are far from wrapping. */
  predicate InInts(fs: bytes, p: Power) {
    ValidPower(p) && |fs| < 100 && PowerValue(p) - |fs| >= -INT_MAX - 1
  }

  lemma WholeParts(ds: bytes, k: nat)
    requires FewDigitsOnly(ds) && ValueFrom(0, ds + Prettify.Zeros(k)) < LIMIT_UINT64
    ensures Parts(Prettify.Whole(ds, k), ds + Prettify.Zeros(k), [ZERO], NoPower, |ds| + k - 1)
    ensures InInts([ZERO], NoPower)
  {
    hide Prettify.Zeros;
    IntegerParts(ds + Prettify.Zeros(k), |ds| + k - 1);
  }

  lemma IntegerParts(whole: bytes, x: int)
    requires AllDigits(whole) && whole != [] && whole[0] != ZERO && ValueFrom(0, whole) < LIMIT_UINT64
    ensures Parts(whole + [DOT, ZERO], whole, [ZERO], NoPower, x)
  {
    hide ValueFrom, FractionText, PowerText;
    ValueOfAppend(0, whole, ZERO);
    WholeText(whole);
    assert AllDigits(whole + [ZERO]);
    assert ValueFrom(0, whole + [ZERO]) / 10 == ValueFrom(0, whole) by { LastZero(ValueFrom(0, whole)); }
  }

  lemma LastZero(v: nat)
    ensures (v * 10 + (ZERO - ZERO)) / 10 == v
  {
  }

  lemma WholeText(whole: bytes)
    ensures whole + [DOT, ZERO] == whole + FractionText([ZERO]) + PowerText(NoPower)
  {
    assert [DOT] + [ZERO] == [DOT, ZERO];
  }

  lemma PointedParts(ds: bytes, kk: nat)
    requires AllDigits(ds) && 0 < kk < |ds| <= 17 && ds[0] != ZERO
    ensures Parts(Prettify.Pointed(ds, kk), ds[..kk], ds[kk..], NoPower, kk - 1)
    ensures InInts(ds[kk..], NoPower)
  {
    hide ValueFrom;
    FewDigits(ds, 17);
    FewDigits(ds[..kk], 17);
    assert ds[..kk] + ds[kk..] == ds;
    assert ds[..kk] + ([DOT] + ds[kk..]) + [] == Prettify.Pointed(ds, kk);
  }

  lemma SmallParts(ds: bytes, z: nat)
    requires AllDigits(ds) && 0 < |ds| <= 17 && z < 6
    ensures Parts(Prettify.Small(ds, z), [ZERO], Prettify.Zeros(z) + ds, NoPower, -(z as int) - 1)
    ensures InInts(Prettify.Zeros(z) + ds, NoPower)
  {
    hide ValueFrom;
    FewDigits(ds, 17);
    FewDigits([ZERO], 17);
    var fs := Prettify.Zeros(z) + ds;
    assert [ZERO] + fs == Prettify.Zeros(z + 1) + ds;
    Prettify.LeadingZeros(z + 1, ds);
    assert [ZERO] + ([DOT] + fs) + [] == Prettify.Small(ds, z);
  }

  lemma ScientificParts(ds: bytes, x: int)
    requires AllDigits(ds) && 0 < |ds| <= 17 && ds[0] != ZERO
    requires x - |ds| + 1 >= -INT_MAX - 1
    ensures Parts(Prettify.Scientific(ds, x), ds[..1], ds[1..], PowerOf(x), x)
    ensures InInts(ds[1..], PowerOf(x))
  {
    hide ValueFrom, DecimalInt;
    PowerOfValue(x);
    FewDigits(ds, 17);
    FewDigits(ds[..1], 17);
    assert ds[..1] + ds[1..] == ds;
    if |ds| == 1 {
      assert ds[..1] + [] == ds;
    } else {
      assert ds[..1] + ([DOT] + ds[1..]) == Prettify.Pointed(ds, 1);
    }
  }

  lemma PartsOf(ds: bytes, k: int32) returns (whole: bytes, fs: bytes, p: Power)
    requires FewDigitsOnly(ds) && Fits(ds, k)
    ensures Parts(Prettify.Pretty(ds, k), whole, fs, p, |ds| + k - 1)
    ensures InInts(fs, p)
  {
    hide Prettify.Whole, Prettify.Pointed, Prettify.Small, Prettify.Scientific, Parts, InInts, PowerOf;
    var kk := |ds| + k;
    if |ds| <= kk <= 21 {
      WholeParts(ds, k);
      whole, fs, p := ds + Prettify.Zeros(k), [ZERO], NoPower;
    } else if 0 < kk <= 21 {
      PointedParts(ds, kk);
      whole, fs, p := ds[..kk], ds[kk..], NoPower;
    } else if -6 < kk <= 0 {
      SmallParts(ds, -kk);
      whole, fs, p := [ZERO], Prettify.Zeros(-kk) + ds, NoPower;
    } else {
      ScientificParts(ds, kk - 1);
      whole, fs, p := ds[..1], ds[1..], PowerOf(kk - 1);
    }
  }

  /** What a text of such parts means, on its own and to the parser. */
  lemma PartsMean(text: bytes, whole: bytes, fs: bytes, p: Power, x: int)
    requires Parts(text, whole, fs, p, x)
    ensures Prettify.ReadNumber(text) == Prettify.Scaled(ValueFrom(0, whole + fs), PowerValue(p) - |fs|)
  {
    hide ValueFrom, Prettify.ReadNumber, Prettify.ReadExponent, PowerText, PowerValue, FractionText;
    var tail := PowerText(p);
    TailMeans(p, x);
    Shape(whole, fs, tail);
    if fs == [] {
      Prettify.ReadsWhole(whole, tail);
    } else {
      Prettify.ReadsParts(whole, fs, tail);
    }
  }

  lemma Shape(whole: bytes, fs: bytes, tail: bytes)
    ensures whole + FractionText(fs) + tail == if fs == [] then whole + tail else whole + [DOT] + fs + tail
    ensures whole + [] == whole
  {
  }

  lemma TailMeans(p: Power, x: int)
    requires p.NoPower? || p == PowerOf(x)
    ensures ValidPower(p) && Prettify.ReadExponent(PowerText(p)) == PowerValue(p)
    ensures PowerText(p) == [] || PowerText(p)[0] == Prettify.EXPONENT
  {
    hide DecimalInt;
    if p.Power? {
      PowerOfValue(x);
      Prettify.ReadsExponent(x);
    }
  }

  /** The text of a layout that fits is read as the double of a significand and a power of ten that make up its number. */
  lemma FittingIsRead(cf: Config, minus: bool, ds: bytes, k: int32, post: bytes, events: seq<Event>)
    returns (m: uint64, exp: int32, expFrac: int32)
    requires FewDigitsOnly(ds) && Fits(ds, k) && |ds| + k - 1 <= LARGEST_POWER && EndsInteger(post)
    ensures Prettify.Same(Prettify.Scaled(m, TotalPower(exp, expFrac)), Prettify.Scaled(ValueFrom(0, ds), k))
    ensures var d := Scaled(cf.float, cf.float.ofUint64(m), exp, expFrac);
            ParseNumber(cf, Progress(Spelled(minus, Prettify.Pretty(ds, k), post), events, NoError))
            == Emit(cf, Progress(post, events, NoError), Double(if minus then cf.float.negate(d) else d))
  {
    hide ParseNumber, Prettify.Pretty, Prettify.ReadNumber, Prettify.Same, ValueFrom, Emit, Scaled, FractionText, PowerText,
      Parts, PowerValue, Spelled, TotalPower, Wrap32;
    var whole, fs, p := PartsOf(ds, k);
    var text := Prettify.Pretty(ds, k);
    PartsMean(text, whole, fs, p, |ds| + k - 1);
    Prettify.PrettyKeepsValue(ds, k);
    PartsFit(minus, text, whole, fs, p, |ds| + k - 1);
    PowerIsExact(p, fs);
    m, exp, expFrac := ValueFrom(0, whole + fs), Wrap32(PowerValue(p)), Wrap32(-|fs|);
    WrapSmall(|fs|);
    SpelledParts(minus, whole, FractionText(fs), PowerText(p), post);
    DecimalIsRead(cf, minus, whole, fs, p, post, events);
  }

  lemma PartsFit(minus: bool, text: bytes, whole: bytes, fs: bytes, p: Power, x: int)
    requires Parts(text, whole, fs, p, x)
    ensures AllDigits(whole) && whole != [] && (whole[0] == ZERO ==> |whole| == 1)
    ensures AllDigits(fs) && ValidPower(p) && (fs != [] || p.Power?) && AllDigits(whole + fs)
    ensures FitsInt64(minus, ValueFrom(0, whole)) && ValueFrom(0, whole + fs) / 10 < LIMIT_UINT64
    ensures ValueFrom(0, whole + fs) < 0x1_0000_0000_0000_0000
    ensures text == whole + FractionText(fs) + PowerText(p) && PowerValue(p) == if p.NoPower? then 0 else x
  {
    hide ValueFrom, FractionText, PowerText, AllDigits;
    PowerOfValue(x);
  }

  lemma SpelledParts(minus: bool, whole: bytes, fraction: bytes, power: bytes, post: bytes)
    ensures Spelled(minus, whole + fraction + power, post) == Spelled(minus, whole, fraction + power + post)
  {
    var sign := if minus then [MINUS] else [];
    assert sign + (whole + fraction + power) + post == sign + whole + (fraction + power + post);
  }

  // ---------------------------------------------------------------- 19 to 21 digits in front of the point

  /** Zeros appended to a double by the loops in floating point. */
  function AppendZeros(fl: FloatOps, d: Float, z: nat): Float
    decreases z
  {
    if z == 0 then d else AppendZeros(fl, fl.appendDigit(d, 0), z - 1)
  }

  /** Whether the comparison with DBL_MAX / 10 lets a 64-bit integer pass, with a few zeros behind it. */
  ghost predicate ShortIsNotTooBig(fl: FloatOps) {
    forall m: uint64, z: nat | z < 3 :: !fl.tooBig(AppendZeros(fl, fl.ofUint64(m), z))
  }

  lemma {:induction false} AppendOneMore(fl: FloatOps, d: Float, z: nat)
    ensures AppendZeros(fl, d, z + 1) == fl.appendDigit(AppendZeros(fl, d, z), 0)
    decreases z
  {
    if z > 0 {
      AppendOneMore(fl, fl.appendDigit(d, 0), z - 1);
    }
  }

  /** Zeros left over by the integer accumulators go into the double one by one. */
  lemma {:induction false} BigZeros(fl: FloatOps, m: uint64, done: nat, z: nat, n: Number, post: bytes)
    requires ShortIsNotTooBig(fl) && done + z <= 3 && !IsDigit(Peek(post)) && n.error == NoError
    requires n.rest == Prettify.Zeros(z) + post && n.d == AppendZeros(fl, fl.ofUint64(m), done)
    ensures BigDigits(fl, n) == n.(rest := post, d := AppendZeros(fl, fl.ofUint64(m), done + z))
    decreases z
  {
    hide AppendZeros;
    if z == 0 {
      assert n.rest == post;
    } else {
      assert Prettify.Zeros(z)[1..] == Prettify.Zeros(z - 1);
      TakeFront(Prettify.Zeros(z), post);
      AppendOneMore(fl, fl.ofUint64(m), done);
      BigZeros(fl, m, done + 1, z - 1, n.(rest := Next(n.rest), d := fl.appendDigit(n.d, 0)), post);
    }
  }

  /** An integer of up to 17 digits and zeros behind them that is too large for 64 bits: the accumulators stop at most
      three zeros before its end. */
  lemma LongInteger(fl: FloatOps, minus: bool, ds: bytes, k: nat, post: bytes) returns (m: uint64, z: nat)
    requires FewDigitsOnly(ds) && |ds| + k <= 21 && !IsDigit(Peek(post))
    requires ShortIsNotTooBig(fl) && !FitsInt64(minus, ValueFrom(0, ds + Prettify.Zeros(k)))
    ensures z <= 3 && m * Grisu.Pow10(z) == ValueFrom(0, ds) * Grisu.Pow10(k)
    ensures ParseInteger(fl, ds + Prettify.Zeros(k) + post, minus)
            == Number(post, m, true, true, AppendZeros(fl, fl.ofUint64(m), z), NoError)
  {
    hide ParseInteger, Accumulate, BigDigits, ValueFrom, IntLimit, Int64Limit, LastDigit, AppendZeros, Grisu.Pow10,
      ShortIsNotTooBig;
    var w := ds + Prettify.Zeros(k);
    ValueOfFirst(w);
    FitsBoth(minus, ValueFrom(0, w));
    var a, b, rest := ReadOn(fl, minus, w[0] - ZERO, w[1..], post);
    TakeFront(w, post);
    NonZeroInteger(fl, w + post, minus, a, b);
    var j := |w| - |rest|;
    assert w[1..][..j - 1] == w[..j][1..];
    assert w == w[..j] + rest;
    assert w[..j][0] == w[0];
    ValueOfFirst(w[..j]);
    StopsLate(minus, w, j, b, post);
    m, z := b.value, |rest|;
    assert rest == Prettify.Zeros(z);
    Prettify.ValueOfZeros(0, ds, k);
    Prettify.ValueOfZeros(0, w[..j], z);
    NoZeros(fl, m);
    BigZeros(fl, m, 0, z, Number(b.rest, m, true, true, fl.ofUint64(m), NoError), post);
  }

  lemma NoZeros(fl: FloatOps, m: uint64)
    ensures AppendZeros(fl, fl.ofUint64(m), 0) == fl.ofUint64(m)
  {
  }

  lemma FitsBoth(minus: bool, v: nat)
    ensures FitsInt(minus, v) ==> FitsInt64(minus, v)
  {
  }

  /** Eighteen digits always fit, so the accumulators take at least as many. */
  lemma StopsLate(minus: bool, w: bytes, j: nat, b: Accumulated, post: bytes)
    requires AllDigits(w) && 0 < j < |w| && b.full && b.rest == w[j..] + post && b.value == ValueFrom(0, w[..j])
    requires b.value * 10 + (Peek(b.rest) - ZERO) > Int64Limit(minus) * 10 + (LastDigit(minus) - ZERO)
    ensures j >= 18
  {
    if j < 18 {
      var front := w[..j + 1];
      assert front == w[..j] + [w[j]];
      ValueOfAppend(0, w[..j], w[j]);
      FewDigits(front, 18);
    }
  }

  /** The fraction 0 behind such an integer, or behind one that leaves the 64-bit significand no room. */
  lemma ZeroFraction(fl: FloatOps, n: Number, m: uint64, z: nat, post: bytes)
    requires n.rest == [DOT, ZERO] + post && !IsDigit(Peek(post)) && n.value == m
    requires if n.useDouble then n.d == AppendZeros(fl, fl.ofUint64(m), z) else z == 0 && m >= LIMIT_UINT64
    ensures ParseFraction(fl, n)
            == (Number(post, m, n.use64bit, true, AppendZeros(fl, fl.ofUint64(m), z + 1), NoError), -1)
  {
    hide AppendZeros;
    NoZeros(fl, m);
    AppendOneMore(fl, fl.ofUint64(m), z);
    assert n.rest == [DOT] + ([ZERO] + post);
    TakeFront([DOT], [ZERO] + post);
    TakeFront([ZERO], post);
    assert [] + ([ZERO] + post) == [ZERO] + post && [] + post == post;
    var d := if n.useDouble then n.d else fl.ofUint64(m);
    OneMoreDigit(fl, Fraction(m, d, [ZERO] + post, 0), post);
  }

  lemma OneMoreDigit(fl: FloatOps, f: Fraction, post: bytes)
    requires f.rest == [ZERO] + post && !IsDigit(Peek(post)) && f.exp == 0
    ensures FractionDigits(fl, f) == f.(d := fl.appendDigit(f.d, 0), rest := post, exp := -1)
    ensures LIMIT_UINT64 <= f.value < 0x1_0000_0000_0000_0000 ==> FractionBits(f) == f
  {
    TakeFront([ZERO], post);
    assert [] + post == post;
    NoMoreDigits(fl, f.(d := fl.appendDigit(f.d, 0), rest := post, exp := -1));
  }

  /** The integer part of a layout that writes out 19 to 21 digits in front of the point, and the zero behind it. */
  lemma LongParts(fl: FloatOps, minus: bool, ds: bytes, k: nat, post: bytes) returns (n: Number, m: uint64, z: nat)
    requires FewDigitsOnly(ds) && |ds| + k <= 21 && !IsDigit(Peek(post))
    requires ShortIsNotTooBig(fl) && ValueFrom(0, ds + Prettify.Zeros(k)) >= LIMIT_UINT64
    ensures m * Grisu.Pow10(z) == ValueFrom(0, ds) * Grisu.Pow10(k)
    ensures n == ParseInteger(fl, ds + Prettify.Zeros(k) + ([DOT, ZERO] + post), minus) && n.error == NoError
    ensures ParseFraction(fl, n)
            == (Number(post, m, n.use64bit, true, AppendZeros(fl, fl.ofUint64(m), z + 1), NoError), -1)
  {
    hide ParseInteger, ParseFraction, ValueFrom, AppendZeros, ShortIsNotTooBig;
    var w, behind := ds + Prettify.Zeros(k), [DOT, ZERO] + post;
    n := ParseInteger(fl, w + behind, minus);
    if FitsInt64(minus, ValueFrom(0, w)) {
      ParseIntegerDigits(fl, minus, w, behind);
      Prettify.ValueOfZeros(0, ds, k);
      m, z := ValueFrom(0, w), 0;
    } else {
      m, z := LongInteger(fl, minus, ds, k, behind);
    }
    ZeroFraction(fl, n, m, z, post);
  }

  /** Such a layout is read as the double of its leading digits with zeros appended, as many as it has. */
  lemma LongIsRead(cf: Config, minus: bool, ds: bytes, k: nat, post: bytes, events: seq<Event>)
    returns (m: uint64, z: nat)
    requires FewDigitsOnly(ds) && |ds| + k <= 21 && EndsInteger(post)
    requires ShortIsNotTooBig(cf.float) && ValueFrom(0, ds + Prettify.Zeros(k)) >= LIMIT_UINT64
    ensures m * Grisu.Pow10(z) == ValueFrom(0, ds) * Grisu.Pow10(k)
    ensures var d := Scaled(cf.float, AppendZeros(cf.float, cf.float.ofUint64(m), z + 1), 0, -1);
            ParseNumber(cf, Progress(Spelled(minus, Prettify.Whole(ds, k), post), events, NoError))
            == Emit(cf, Progress(post, events, NoError), Double(if minus then cf.float.negate(d) else d))
  {
    hide ParseInteger, ParseFraction, ParseExponent, ParseNumber, ValueFrom, Emit, Spelled, AppendZeros, ShortIsNotTooBig,
      Grisu.Pow10;
    var fl, w, behind := cf.float, ds + Prettify.Zeros(k), [DOT, ZERO] + post;
    var s := Progress(Spelled(minus, Prettify.Whole(ds, k), post), events, NoError);
    var n;
    n, m, z := LongParts(fl, minus, ds, k, post);
    WholeSpelled(minus, ds, k, post);
    SignIsTaken(minus, w, behind);
    var f := Number(post, m, n.use64bit, true, AppendZeros(fl, fl.ofUint64(m), z + 1), NoError);
    assert PowerText(NoPower) + post == post;
    NoExponent(fl, f, NoPower, post);
    InThreeParts(cf, s, minus, n, f, -1, f, 0);
  }

  lemma WholeSpelled(minus: bool, ds: bytes, k: nat, post: bytes)
    ensures Spelled(minus, Prettify.Whole(ds, k), post) == Spelled(minus, ds + Prettify.Zeros(k), [DOT, ZERO] + post)
  {
    var sign, w := if minus then [MINUS] else [], ds + Prettify.Zeros(k);
    assert sign + (w + [DOT, ZERO]) + post == sign + w + ([DOT, ZERO] + post);
  }

  lemma {:induction false} Pow10Plus(a: nat, b: nat)
    ensures Grisu.Pow10(a + b) == Grisu.Pow10(a) * Grisu.Pow10(b)
  {
    if a == 0 {
      Grisu.Regrouped(1, 1, Grisu.Pow10(b));
    } else {
      Pow10Plus(a - 1, b);
      Grisu.Regrouped(10, Grisu.Pow10(a - 1), Grisu.Pow10(b));
    }
  }

  lemma Cancel(m: nat, q: nat, p: nat, v: nat)
    requires p > 0 && m * (q * p) == v * p
    ensures m * q == v
  {
    assert m * (q * p) == m * q * p;
    assert (m * q - v) * p == 0;
    if m * q != v {
      NotZero(m * q - v, p);
    }
  }

  lemma NotZero(a: int, p: nat)
    requires a != 0 && p != 0
    ensures a * p != 0
  {
  }

  lemma SameIfEqual(m: nat, z: nat, v: nat, k: nat)
    requires m * Grisu.Pow10(z) == v * Grisu.Pow10(k)
    ensures Prettify.Same(Prettify.Scaled(m, z), Prettify.Scaled(v, k))
  {
    hide Grisu.Pow10;
    if z >= k {
      Pow10Plus(z - k, k);
      Cancel(m, Grisu.Pow10(z - k), Grisu.Pow10(k), v);
    } else {
      Pow10Plus(k - z, z);
      Cancel(v, Grisu.Pow10(k - z), Grisu.Pow10(z), m);
    }
  }

  /** The text Prettify makes of up to 17 digits times 10^k is read as the double of an integer of 64 bits, with zeros
      appended where it writes out more digits than that, scaled by a power of ten; all of it makes up the same number. */
  lemma PrettyIsRead(cf: Config, minus: bool, ds: bytes, k: int32, post: bytes, events: seq<Event>)
    returns (m: uint64, z: nat, exp: int32, expFrac: int32)
    requires FewDigitsOnly(ds) && |ds| + k - 1 <= LARGEST_POWER && EndsInteger(post) && ShortIsNotTooBig(cf.float)
    ensures Prettify.Same(Prettify.Scaled(m, z + TotalPower(exp, expFrac)), Prettify.Scaled(ValueFrom(0, ds), k))
    ensures var d := Scaled(cf.float, AppendZeros(cf.float, cf.float.ofUint64(m), z), exp, expFrac);
            ParseNumber(cf, Progress(Spelled(minus, Prettify.Pretty(ds, k), post), events, NoError))
            == Emit(cf, Progress(post, events, NoError), Double(if minus then cf.float.negate(d) else d))
  {
    hide ParseNumber, Prettify.Whole, Prettify.Same, ValueFrom, Emit, Scaled, Spelled, AppendZeros, ShortIsNotTooBig,
      Grisu.Pow10;
    if Fits(ds, k) {
      m, exp, expFrac := FittingIsRead(cf, minus, ds, k, post, events);
      z := 0;
      NoZeros(cf.float, m);
    } else {
      m, z := LongIsRead(cf, minus, ds, k, post, events);
      SameIfEqual(m, z, ValueFrom(0, ds), k);
      z, exp, expFrac := z + 1, 0, -1;
    }
  }
}
