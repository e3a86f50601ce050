/** ParseNumber on integers: exact, in the narrowest type, never past an accumulator's range (reader.h). */
module ReadNumber {
  import opened Streams
  import opened Events
  import opened Numbers
  import opened ReaderSpec

  /** The largest value an accumulator with this limit takes. */
  function Max(limit: nat, last: byte): nat
    requires IsDigit(last)
  {
    limit * 10 + (last - ZERO)
  }

  lemma {:induction false} ValueOfConcat(n: nat, a: bytes, b: bytes)
    requires AllDigits(a) && AllDigits(b)
    ensures ValueFrom(n, a + b) == ValueFrom(ValueFrom(n, a), b)
    decreases |a|
  {
    if a == [] {
      assert a + b == b;
    } else {
      assert (a + b)[1..] == a[1..] + b;
      ValueOfConcat(n * 10 + (a[0] - ZERO), a[1..], b);
    }
  }

  lemma AccumulateOne(ds: bytes, post: bytes, n: nat, limit: nat, last: byte)
    requires AllDigits(ds) && ds != [] && IsDigit(last) && n <= Max(limit, last)
    ensures var n' := n * 10 + (ds[0] - ZERO);
            Accumulate(ds + post, n, limit, last) ==
              if n' > Max(limit, last) then Accumulated(n, ds + post, true)
              else Accumulate(ds[1..] + post, n', limit, last)
  {
    TakeFront(ds, post);
  }

  /** A run of digits is read whole when its value fits, and otherwise up to the digit that does not;
      `k` is how many digits were read. */
  lemma {:induction false} AccumulateDigits(ds: bytes, post: bytes, n: nat, limit: nat, last: byte) returns (k: nat)
    requires AllDigits(ds) && !IsDigit(Peek(post)) && IsDigit(last) && n <= Max(limit, last)
    ensures k <= |ds|
    ensures ValueFrom(n, ds[..k]) <= Max(limit, last)
    ensures Accumulate(ds + post, n, limit, last) == Accumulated(ValueFrom(n, ds[..k]), ds[k..] + post, k < |ds|)
    ensures k == |ds| <==> ValueFrom(n, ds) <= Max(limit, last)
    decreases |ds|
  {
    if ds == [] {
      assert ds + post == post;
      Nothing(n, ds);
      return 0;
    }
    AccumulateOne(ds, post, n, limit, last);
    hide Accumulate, Max, ValueFrom;
    var n' := n * 10 + (ds[0] - ZERO);
    if n' > Max(limit, last) {
      ValueGrows(n', ds[1..]);
      OneMore(n, ds, |ds| - 1);
      Nothing(n, ds);
      return 0;
    }
    var j := AccumulateDigits(ds[1..], post, n', limit, last);
    k := j + 1;
    OneMore(n, ds, j);
    OneMore(n, ds, |ds| - 1);
  }

  lemma Nothing(n: nat, ds: bytes)
    requires AllDigits(ds)
    ensures ValueFrom(n, ds[..0]) == n && ds[0..] == ds
  {
  }

  lemma OneMore(n: nat, ds: bytes, j: nat)
    requires AllDigits(ds) && j < |ds|
    ensures ValueFrom(n, ds[..j + 1]) == ValueFrom(n * 10 + (ds[0] - ZERO), ds[1..][..j])
    ensures ds[j + 1..] == ds[1..][j..] && ds[..|ds|] == ds && ds[1..][..|ds| - 1] == ds[1..]
  {
    assert ds[..j + 1][1..] == ds[1..][..j];
  }

  /** What may follow a number that is only an integer. */
  predicate EndsInteger(post: bytes) {
    !IsDigit(Peek(post)) && Peek(post) !in {DOT, 0x65, 0x45}
  }

  lemma {:induction false} BigDigitsEnd(fl: FloatOps, n: Number, ds: bytes, post: bytes)
    requires AllDigits(ds) && !IsDigit(Peek(post)) && n.rest == ds + post && n.error == NoError
    ensures var r := BigDigits(fl, n); r.error == NumberTooBig || (r.error == NoError && r.rest == post)
    decreases |ds|
  {
    if ds == [] {
      assert ds + post == post;
    } else {
      assert (ds + post)[1..] == ds[1..] + post;
      if !fl.tooBig(n.d) {
        BigDigitsEnd(fl, n.(rest := Next(n.rest), d := fl.appendDigit(n.d, ds[0] - ZERO)), ds[1..], post);
      }
    }
  }

  /** Whether a magnitude fits i, as Int after a minus and as Uint otherwise. */
  predicate FitsInt(minus: bool, v: nat) {
    v <= if minus then 0x8000_0000 else 0xFFFF_FFFF
  }

  /** Whether it fits i64, as Int64 after a minus and as Uint64 otherwise. */
  predicate FitsInt64(minus: bool, v: nat) {
    v <= if minus then 0x8000_0000_0000_0000 else 0xFFFF_FFFF_FFFF_FFFF
  }

  /** The digits after the first: i, then i64, then a double. */
  lemma ReadOn(fl: FloatOps, minus: bool, n: nat, ds: bytes, post: bytes) returns (a: Accumulated, b: Accumulated, rest: bytes)
    requires AllDigits(ds) && n <= 9 && !IsDigit(Peek(post))
    ensures a == Accumulate(ds + post, n, IntLimit(minus), LastDigit(minus))
    ensures var v := ValueFrom(n, ds);
            if FitsInt(minus, v) then a == Accumulated(v, post, false)
            else
              && a.full
              && b == Accumulate(a.rest, a.value, Int64Limit(minus), LastDigit(minus))
              && (if FitsInt64(minus, v) then
                    b == Accumulated(v, post, false)
                  else
                    && b.full && AllDigits(rest) && b.rest == rest + post && 0 < |rest| <= |ds|
                    && ds == ds[..|ds| - |rest|] + rest && b.value == ValueFrom(n, ds[..|ds| - |rest|]))
  {
    hide Accumulate, ValueFrom;
    var last, lim, lim64 := LastDigit(minus), IntLimit(minus), Int64Limit(minus);
    var k := AccumulateDigits(ds, post, n, lim, last);
    a := Accumulate(ds + post, n, lim, last);
    b := a;
    rest := ds[k..];
    if k == |ds| {
      assert rest + post == post && ds[..k] == ds;
    } else {
      var j := AccumulateDigits(rest, post, a.value, lim64, last);
      b := Accumulate(a.rest, a.value, lim64, last);
      InTwoRuns(n, ds, k, |rest|);
      InTwoRuns(n, ds, k, j);
      rest := ds[k + j..];
      assert j == |ds| - k ==> rest + post == post;
      assert ds[k..][j..] == rest;
    }
  }

  lemma InTwoRuns(n: nat, ds: bytes, k: nat, j: nat)
    requires AllDigits(ds) && k + j <= |ds|
    ensures ds[k..][..j] == ds[k..k + j] && ValueFrom(ValueFrom(n, ds[..k]), ds[k..k + j]) == ValueFrom(n, ds[..k + j])
    ensures k + j == |ds| ==> ds[..k + j] == ds && ds[k..][..j] == ds[k..]
    ensures ds == ds[..k + j] + ds[k + j..]
  {
    assert ds[..k + j] == ds[..k] + ds[k..k + j];
    ValueOfConcat(n, ds[..k], ds[k..k + j]);
  }

  /** The integer phase of ParseNumber: i below 2^31 (after a minus) or 2^32, then i64 below 2^63 or 2^64, then a double. */
  lemma ParseIntegerDigits(fl: FloatOps, minus: bool, ds: bytes, post: bytes)
    requires AllDigits(ds) && ds != [] && (ds[0] == ZERO ==> |ds| == 1)
    requires !IsDigit(Peek(post))
    ensures var r := ParseInteger(fl, ds + post, minus);
            var v := ValueFrom(0, ds);
            if FitsInt(minus, v) then
              r == Number(post, v, false, false, fl.ofUint64(0), NoError)
            else if FitsInt64(minus, v) then
              r == Number(post, v, true, false, fl.ofUint64(0), NoError)
            else
              r.error == NumberTooBig || (r.error == NoError && r.useDouble && r.rest == post)
  {
    hide ParseInteger, Accumulate, BigDigits, ValueFrom, IntLimit, Int64Limit, LastDigit, FitsInt, FitsInt64, Peek, Next;
    ValueOfFirst(ds);
    if ds[0] == ZERO {
      assert ds == [ZERO];
      ZeroInteger(fl, minus, post);
    } else {
      var a, b, rest := ReadOn(fl, minus, ds[0] - ZERO, ds[1..], post);
      if a.full && b.full {
        BigDigitsEnd(fl, Number(b.rest, b.value, true, true, fl.ofUint64(b.value), NoError), rest, post);
      }
      TakeFront(ds, post);
      NonZeroInteger(fl, ds + post, minus, a, b);
    }
  }

  lemma ZeroInteger(fl: FloatOps, minus: bool, post: bytes)
    ensures ParseInteger(fl, [ZERO] + post, minus) == Number(post, 0, false, false, fl.ofUint64(0), NoError)
    ensures FitsInt(minus, 0)
  {
    assert ([ZERO] + post)[1..] == post;
  }

  lemma NonZeroInteger(fl: FloatOps, text: bytes, minus: bool, a: Accumulated, b: Accumulated)
    requires IsDigit(Peek(text)) && Peek(text) != ZERO
    requires a == Accumulate(Next(text), Peek(text) - ZERO, IntLimit(minus), LastDigit(minus))
    requires a.full ==>
               b == Accumulate(a.rest, a.value, Int64Limit(minus), LastDigit(minus))
    ensures ParseInteger(fl, text, minus) ==
              if !a.full then Number(a.rest, a.value, false, false, fl.ofUint64(0), NoError)
              else if !b.full then Number(b.rest, b.value, true, false, fl.ofUint64(0), NoError)
              else BigDigits(fl, Number(b.rest, b.value, true, true, fl.ofUint64(b.value), NoError))
  {
    hide Accumulate, BigDigits, IntLimit, Int64Limit, LastDigit;
  }

  lemma ValueOfFirst(ds: bytes)
    requires AllDigits(ds) && ds != []
    ensures ValueFrom(0, ds) == ValueFrom(ds[0] - ZERO, ds[1..])
    ensures ds == [ZERO] ==> ValueFrom(0, ds) == 0
  {
  }

  /** The text of an integer, signed or not, in front of something else. */
  function Spelled(minus: bool, ds: bytes, post: bytes): bytes {
    (if minus then [MINUS] else []) + ds + post
  }

  /** With no fraction and no exponent, the number is what the integer phase made of it. */
  lemma OnlyInteger(cf: Config, minus: bool, ds: bytes, post: bytes, events: seq<Event>)
    requires ds != [] && IsDigit(ds[0])
    requires var n := ParseInteger(cf.float, ds + post, minus);
             n.error == NoError ==> EndsInteger(n.rest)
    ensures var n := ParseInteger(cf.float, ds + post, minus);
            ParseNumber(cf, Progress(Spelled(minus, ds, post), events, NoError)) ==
              if n.error != NoError then Progress(n.rest, events, n.error)
              else Emit(cf, Progress(n.rest, events, NoError), NumberEvent(cf.float, n, minus, 0, 0))
  {
    hide ParseInteger, NumberEvent, Spelled, Emit;
    SpelledIs(minus, ds, post);
  }

  lemma SpelledIs(minus: bool, ds: bytes, post: bytes)
    requires ds != [] && IsDigit(ds[0])
    ensures var text := Spelled(minus, ds, post);
            (Peek(text) == MINUS <==> minus) && (if minus then Next(text) else text) == ds + post
  {
    var text := Spelled(minus, ds, post);
    if minus {
      assert text == [MINUS] + (ds + post);
    } else {
      assert text == ds + post;
    }
  }

  /** An integer literal reports its exact value in the narrowest type: Uint or Uint64, after a minus Int or Int64;
      it is told as a double, or refused as too big for one, exactly when neither integer type holds it. */
  lemma NarrowestType(cf: Config, minus: bool, ds: bytes, post: bytes, events: seq<Event>)
    requires AllDigits(ds) && ds != [] && (ds[0] == ZERO ==> |ds| == 1)
    requires EndsInteger(post)
    ensures var v: int := ValueFrom(0, ds);
            var s := Progress(post, events, NoError);
            var r := ParseNumber(cf, Progress(Spelled(minus, ds, post), events, NoError));
            && (!minus && v < 0x1_0000_0000 ==> r == Emit(cf, s, Uint(v)))
            && (!minus && 0x1_0000_0000 <= v < 0x1_0000_0000_0000_0000 ==> r == Emit(cf, s, Uint64(v)))
            && (minus && v <= 0x8000_0000 ==> r == Emit(cf, s, Int(-v)))
            && (minus && 0x8000_0000 < v <= 0x8000_0000_0000_0000 ==> r == Emit(cf, s, Int64(-v)))
            && ((if minus then v > 0x8000_0000_0000_0000 else v > 0xFFFF_FFFF_FFFF_FFFF) <==>
                r.error == NumberTooBig || exists d :: r == Emit(cf, s, Double(d)))
  {
    hide ParseInteger, ParseNumber, ValueFrom, Emit, Spelled, NumberEvent;
    ParseIntegerDigits(cf.float, minus, ds, post);
    OnlyInteger(cf, minus, ds, post, events);
    var n := ParseInteger(cf.float, ds + post, minus);
    var r := ParseNumber(cf, Progress(Spelled(minus, ds, post), events, NoError));
    if n.error == NoError {
      IntegerEvent(cf.float, n, minus);
      EmitTellsEvent(cf, Progress(post, events, NoError), NumberEvent(cf.float, n, minus, 0, 0));
    }
  }

  lemma IntegerEvent(fl: FloatOps, n: Number, minus: bool)
    requires n.value < 0x1_0000_0000_0000_0000 && (n.useDouble || n.use64bit || n.value < 0x1_0000_0000)
    ensures var e := NumberEvent(fl, n, minus, 0, 0); var v: int := n.value;
            && (n.useDouble <==> e.Double?)
            && (!n.useDouble && !minus ==> e == if n.use64bit then Uint64(v) else Uint(v))
            && (!n.useDouble && minus && n.use64bit && v <= 0x8000_0000_0000_0000 ==> e == Int64(-v))
            && (!n.useDouble && minus && !n.use64bit && v <= 0x8000_0000 ==> e == Int(-v))
  {
    hide NegateInt32, NegateInt64, Wrap32;
  }

  lemma EmitTellsEvent(cf: Config, s: Progress, e: Event)
    requires s.error == NoError
    ensures Emit(cf, s, e).error in {NoError, Termination}
    ensures e.Double? <==> exists d :: Emit(cf, s, e) == Emit(cf, s, Double(d))
  {
    if e.Double? {
      assert Emit(cf, s, e) == Emit(cf, s, Double(e.d));
    }
    forall d | Emit(cf, s, e) == Emit(cf, s, Double(d)) ensures e.Double? {
      assert (s.events + [e])[|s.events|] == (s.events + [Double(d)])[|s.events|];
    }
  }
}
