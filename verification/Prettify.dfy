/** Prettify: digits and a decimal exponent laid out in place as text, whose value is proved to be unchanged
    (internal/dtoa.h). */
module Prettify {
  import opened Streams
  import opened Numbers
  import opened Itoa
  import Grisu

  const EXPONENT: byte := 0x65

  function Zeros(n: nat): (ds: bytes)
    ensures |ds| == n && AllDigits(ds)
  {
    seq(n, _ => ZERO)
  }

  /** 1234e7 as 12340000000.0 */
  function Whole(ds: bytes, k: nat): bytes {
    ds + Zeros(k) + [DOT, ZERO]
  }

  /** 1234e-2 as 12.34 */
  function Pointed(ds: bytes, kk: nat): bytes
    requires kk <= |ds|
  {
    ds[..kk] + [DOT] + ds[kk..]
  }

  /** 1234e-6 as 0.001234 */
  function Small(ds: bytes, z: nat): bytes {
    [ZERO, DOT] + Zeros(z) + ds
  }

  /** 1234e30 as 1.234e33, and 1e30 as it is */
  function Scientific(ds: bytes, x: int): bytes
    requires ds != []
  {
    (if |ds| == 1 then ds else Pointed(ds, 1)) + ([EXPONENT] + DecimalInt(x))
  }

  /** The layouts of the digits `ds` times 10^k. */
  function Pretty(ds: bytes, k: int): bytes
    requires ds != []
  {
    var kk := |ds| + k;
    if |ds| <= kk <= 21 then Whole(ds, k)
    else if 0 < kk <= 21 then Pointed(ds, kk)
    else if -6 < kk <= 0 then Small(ds, -kk)
    else Scientific(ds, kk - 1)
  }

  // ---------------------------------------------------------------- what such a text means

  /** A mantissa times a power of ten. */
  datatype Scaled = Scaled(m: nat, x: int)

  /** Whether two such numbers are the same. */
  predicate Same(a: Scaled, b: Scaled) {
    if a.x >= b.x then a.m * Grisu.Pow10(a.x - b.x) == b.m else a.m == b.m * Grisu.Pow10(b.x - a.x)
  }

  /** The digits a text begins with. */
  function Run(text: bytes): (ds: bytes)
    ensures |ds| <= |text| && ds == text[..|ds|] && AllDigits(ds)
  {
    if text == [] || !IsDigit(text[0]) then [] else [text[0]] + Run(text[1..])
  }

  function ReadInt(text: bytes): int {
    if text != [] && text[0] == MINUS then -(ValueFrom(0, Run(text[1..])) as int) else ValueFrom(0, Run(text))
  }

  /** A JSON number without a sign, section 2.4 of RFC 4627: digits, then a fraction if there is a point, then an
      exponent if there is an e. */
  function ReadNumber(text: bytes): Scaled {
    var rest := Rest(text);
    if rest != [] && rest[0] == DOT then
      Scaled(ValueFrom(0, Run(text) + Run(rest[1..])), ReadExponent(Rest(rest[1..])) - |Run(rest[1..])|)
    else
      Scaled(ValueFrom(0, Run(text)), ReadExponent(rest))
  }

  function Rest(text: bytes): bytes {
    text[|Run(text)|..]
  }

  function ReadExponent(text: bytes): int {
    if text != [] && text[0] == EXPONENT then ReadInt(text[1..]) else 0
  }

  lemma {:induction false} RunOf(ds: bytes, tail: bytes)
    requires AllDigits(ds) && (tail == [] || !IsDigit(tail[0]))
    ensures Run(ds + tail) == ds && Rest(ds + tail) == tail
  {
    if ds == [] {
      assert ds + tail == tail;
    } else {
      assert (ds + tail)[1..] == ds[1..] + tail;
      RunOf(ds[1..], tail);
    }
  }

  /** A text of digits, a point, digits and an exponent part, taken apart again. */
  lemma ReadsParts(whole: bytes, fraction: bytes, tail: bytes)
    requires AllDigits(whole) && AllDigits(fraction) && (tail == [] || tail[0] == EXPONENT)
    ensures AllDigits(whole + fraction)
    ensures ReadNumber(whole + [DOT] + fraction + tail) ==
              Scaled(ValueFrom(0, whole + fraction), ReadExponent(tail) - |fraction|)
  {
    hide Run, Rest, ValueFrom, ReadExponent;
    var behind := [DOT] + (fraction + tail);
    assert whole + [DOT] + fraction + tail == whole + behind;
    assert behind[1..] == fraction + tail;
    RunOf(whole, behind);
    RunOf(fraction, tail);
  }

  lemma ReadsWhole(whole: bytes, tail: bytes)
    requires AllDigits(whole) && (tail == [] || tail[0] == EXPONENT)
    ensures ReadNumber(whole + tail) == Scaled(ValueFrom(0, whole), ReadExponent(tail))
  {
    hide Run, Rest, ValueFrom, ReadExponent;
    RunOf(whole, tail);
  }

  lemma ReadsExponent(x: int)
    ensures ReadExponent([EXPONENT] + DecimalInt(x)) == x
  {
    var text := DecimalInt(x);
    assert ([EXPONENT] + text)[1..] == text;
    var digits := Decimal(if x < 0 then -x else x);
    ValueOfDecimal(if x < 0 then -x else x);
    RunOf(digits, []);
    assert digits + [] == digits;
    assert x < 0 ==> text[1..] == digits;
  }

  lemma {:induction false} ValueOfZeros(n: nat, ds: bytes, z: nat)
    requires AllDigits(ds)
    ensures ValueFrom(n, ds + Zeros(z)) == ValueFrom(n, ds) * Grisu.Pow10(z)
    decreases z
  {
    if z == 0 {
      assert ds + Zeros(0) == ds;
    } else {
      assert ds + Zeros(z) == ds + Zeros(z - 1) + [ZERO];
      ValueOfZeros(n, ds, z - 1);
      ValueOfAppend(n, ds + Zeros(z - 1), ZERO);
      var v, p := ValueFrom(n, ds), Grisu.Pow10(z - 1);
      assert v * (10 * p) == v * p * 10;
    }
  }

  lemma {:induction false} LeadingZeros(z: nat, ds: bytes)
    requires AllDigits(ds)
    ensures ValueFrom(0, Zeros(z) + ds) == ValueFrom(0, ds)
    decreases z
  {
    if z == 0 {
      assert Zeros(0) + ds == ds;
    } else {
      assert (Zeros(z) + ds)[1..] == Zeros(z - 1) + ds;
      LeadingZeros(z - 1, ds);
    }
  }

  lemma WholeKeepsValue(ds: bytes, k: nat)
    requires AllDigits(ds)
    ensures Same(ReadNumber(Whole(ds, k)), Scaled(ValueFrom(0, ds), k))
  {
    hide ReadNumber, ReadExponent;
    var whole := ds + Zeros(k);
    ReadsParts(whole, [ZERO], []);
    NoExponent();
    assert Whole(ds, k) == whole + [DOT] + [ZERO] + [];
    assert whole + [ZERO] == ds + Zeros(k + 1);
    ValueOfZeros(0, ds, k + 1);
  }

  lemma PointedKeepsValue(ds: bytes, kk: nat)
    requires AllDigits(ds) && kk <= |ds|
    ensures Same(ReadNumber(Pointed(ds, kk)), Scaled(ValueFrom(0, ds), kk - |ds|))
  {
    hide ReadNumber, ReadExponent;
    ReadsParts(ds[..kk], ds[kk..], []);
    NoExponent();
    assert Pointed(ds, kk) == ds[..kk] + [DOT] + ds[kk..] + [];
    assert ds[..kk] + ds[kk..] == ds;
  }

  lemma SmallKeepsValue(ds: bytes, z: nat)
    requires AllDigits(ds)
    ensures Same(ReadNumber(Small(ds, z)), Scaled(ValueFrom(0, ds), 0 - z - |ds|))
  {
    hide ReadNumber, ReadExponent;
    ReadsParts([ZERO], Zeros(z) + ds, []);
    NoExponent();
    assert Small(ds, z) == [ZERO] + [DOT] + (Zeros(z) + ds) + [];
    assert [ZERO] + (Zeros(z) + ds) == Zeros(z + 1) + ds;
    LeadingZeros(z + 1, ds);
  }

  lemma ScientificKeepsValue(ds: bytes, x: int)
    requires AllDigits(ds) && ds != []
    ensures Same(ReadNumber(Scientific(ds, x)), Scaled(ValueFrom(0, ds), x - |ds| + 1))
  {
    SameAsItself(ReadNumber(Scientific(ds, x)));
    ReadsScientific(ds, x);
  }

  lemma ReadsScientific(ds: bytes, x: int)
    requires AllDigits(ds) && ds != []
    ensures ReadNumber(Scientific(ds, x)) == Scaled(ValueFrom(0, ds), x - |ds| + 1)
  {
    hide ReadNumber, ReadExponent, DecimalInt, ValueFrom, AllDigits;
    var tail := [EXPONENT] + DecimalInt(x);
    ReadsExponent(x);
    if |ds| == 1 {
      assert Scientific(ds, x) == ds + tail;
      ReadsWhole(ds, tail);
    } else {
      var whole, fraction := ds[..1], ds[1..];
      assert Scientific(ds, x) == whole + [DOT] + fraction + tail;
      assert whole + fraction == ds;
      DigitsSplit(ds, 1);
      ReadsParts(whole, fraction, tail);
    }
  }

  lemma DigitsSplit(ds: bytes, k: nat)
    requires AllDigits(ds) && k <= |ds|
    ensures AllDigits(ds[..k]) && AllDigits(ds[k..])
  {
  }

  lemma SameAsItself(a: Scaled)
    ensures Same(a, a)
  {
  }

  /** In all five layouts, the text means the digits times 10^k. */
  lemma PrettyKeepsValue(ds: bytes, k: int)
    requires AllDigits(ds) && ds != []
    ensures Same(ReadNumber(Pretty(ds, k)), Scaled(ValueFrom(0, ds), k))
  {
    hide ReadNumber, Whole, Pointed, Small, Scientific, Same;
    var kk := |ds| + k;
    if |ds| <= kk <= 21 {
      WholeKeepsValue(ds, k);
    } else if 0 < kk <= 21 {
      PointedKeepsValue(ds, kk);
    } else if -6 < kk <= 0 {
      SmallKeepsValue(ds, -kk);
    } else {
      ScientificKeepsValue(ds, kk - 1);
    }
  }

  lemma NoExponent()
    ensures ReadExponent([]) == 0
  {
  }

  /** How many digits stand before the point of a text without an exponent. */
  function BeforePoint(kk: int): nat {
    if kk > 0 then kk else 1
  }

  lemma AllAreDigits(a: bytes, b: bytes)
    requires AllDigits(a) && AllDigits(b)
    ensures var text := a + [DOT] + b;
            text[|a|] == DOT && EXPONENT !in text && forall i | 0 <= i < |text| && i != |a| :: IsDigit(text[i])
  {
    var text := a + [DOT] + b;
    forall i | 0 <= i < |text| && i != |a| ensures IsDigit(text[i]) {
      assert i < |a| ==> text[i] == a[i];
      assert i > |a| ==> text[i] == b[i - |a| - 1];
    }
  }

  /** Which form is chosen: an exponent is written exactly for numbers from 10^21 up and below 10^-6. Any other number has
      exactly one point, with digits on both sides, no zero too many in front of it, and behind it as many digits as it
      needs, or one. */
  lemma PrettyForm(ds: bytes, k: int)
    requires ds != [] && AllDigits(ds)
    ensures var text, kk := Pretty(ds, k), |ds| + k;
            && (EXPONENT in text <==> kk > 21 || kk <= -6)
            && (EXPONENT !in text ==>
                  var p := BeforePoint(kk);
                  && |text| == p + 1 + (if k < 0 then -k else 1) && text[p] == DOT
                  && (forall i | 0 <= i < |text| && i != p :: IsDigit(text[i]))
                  && (kk <= 0 ==> text[0] == ZERO))
            && (EXPONENT in text ==> text[0] == ds[0] && text[1] == if |ds| == 1 then EXPONENT else DOT)
  {
    hide Zeros;
    var kk := |ds| + k;
    if |ds| <= kk <= 21 {
      assert Whole(ds, k) == (ds + Zeros(k)) + [DOT] + [ZERO];
      AllAreDigits(ds + Zeros(k), [ZERO]);
    } else if 0 < kk <= 21 {
      AllAreDigits(ds[..kk], ds[kk..]);
    } else if -6 < kk <= 0 {
      assert Small(ds, -kk) == [ZERO] + [DOT] + (Zeros(-kk) + ds);
      AllAreDigits([ZERO], Zeros(-kk) + ds);
    } else {
      var mantissa := if |ds| == 1 then ds else Pointed(ds, 1);
      assert Scientific(ds, kk - 1)[|mantissa|] == EXPONENT;
    }
  }

  // ---------------------------------------------------------------- the buffer

  /** One byte behind a prefix. */
  method Put(buffer: array<byte>, at: nat, b: byte) returns (end: nat)
    requires at < buffer.Length
    modifies buffer
    ensures end == at + 1 && buffer[..end] == old(buffer[..at]) + [b]
  {
    buffer[at] := b;
    end := at + 1;
  }

  /** memmove of `n` bytes. */
  method MemMove(buffer: array<byte>, to: nat, from: nat, n: nat)
    requires to + n <= buffer.Length && from + n <= buffer.Length
    modifies buffer
    ensures buffer[to..to + n] == old(buffer[from..from + n])
    ensures buffer[..to] == old(buffer[..to]) && buffer[to + n..] == old(buffer[to + n..])
  {
    forall i | 0 <= i < n {
      buffer[to + i] := buffer[from + i];
    }
  }

  lemma {:induction false} ShortDecimal(k: nat)
    requires k < 1000
    ensures Decimal(k) == if k < 10 then [(ZERO + k) as byte]
                          else if k < 100 then [(ZERO + k / 10) as byte, (ZERO + k % 10) as byte]
                          else [(ZERO + k / 100) as byte, (ZERO + k / 10 % 10) as byte, (ZERO + k % 10) as byte]
  {
    assert DigitsOf(0) == [];
    if 0 < k < 10 {
      assert DigitsOf(k) == DigitsOf(0) + [(ZERO + k % 10) as byte];
    } else if 10 <= k < 100 {
      assert DigitsOf(k / 10) == DigitsOf(0) + [(ZERO + k / 10) as byte];
      assert DigitsOf(k) == DigitsOf(k / 10) + [(ZERO + k % 10) as byte];
    } else if k >= 100 {
      assert k / 10 / 10 == k / 100;
      assert DigitsOf(k / 100) == DigitsOf(0) + [(ZERO + k / 100) as byte];
      assert DigitsOf(k / 10) == DigitsOf(k / 100) + [(ZERO + k / 10 % 10) as byte];
      assert DigitsOf(k) == DigitsOf(k / 10) + [(ZERO + k % 10) as byte];
    }
  }

  /** The digits of an exponent below 1000. */
  method WriteDigits(K: nat, buffer: array<byte>, start: nat) returns (end: nat)
    requires K < 1000 && start + 3 <= buffer.Length
    modifies buffer
    ensures end <= start + 3 && buffer[..end] == old(buffer[..start]) + Decimal(K)
  {
    ExponentDigits(K);
    hide DigitsOf, Decimal, DigitsLut;
    ghost var pre := buffer[..start];
    if K >= 100 {
      end := Put(buffer, start, ZERO + K / 100);
      end := Put(buffer, end, DigitsLut(K % 100 * 2));
      end := Put(buffer, end, DigitsLut(K % 100 * 2 + 1));
    } else if K >= 10 {
      end := Put(buffer, start, DigitsLut(K * 2));
      end := Put(buffer, end, DigitsLut(K * 2 + 1));
    } else {
      end := Put(buffer, start, ZERO + K);
    }
    assert buffer[..end] == pre + Decimal(K);
  }

  lemma LutPair(k: nat)
    requires k < 100
    ensures DigitsLut(k * 2) == ZERO + k / 10 && DigitsLut(k * 2 + 1) == ZERO + k % 10
  {
  }

  lemma LowerTwo(k: nat)
    requires k < 1000
    ensures k % 100 / 10 == k / 10 % 10 && k % 100 % 10 == k % 10
  {
    var q, r := k / 100, k % 100;
    assert k == 100 * q + r && k / 10 == 10 * q + r / 10;
  }

  lemma ExponentDigits(k: nat)
    requires k < 1000
    ensures Decimal(k) == if k < 10 then [(ZERO + k) as byte]
                          else if k < 100 then [DigitsLut(k * 2), DigitsLut(k * 2 + 1)]
                          else [(ZERO + k / 100) as byte, DigitsLut(k % 100 * 2), DigitsLut(k % 100 * 2 + 1)]
  {
    ShortDecimal(k);
    hide Decimal, DigitsLut;
    LutPair(k % 100);
    LowerTwo(k);
  }

  /** Writes an exponent below 1000 in magnitude. */
  method WriteExponent(K: int, buffer: array<byte>, start: nat) returns (end: nat)
    requires -1000 < K < 1000 && start + 4 <= buffer.Length
    modifies buffer
    ensures end <= start + 4 && buffer[..end] == old(buffer[..start]) + DecimalInt(K)
  {
    hide Decimal;
    end := start;
    var k := K;
    if k < 0 {
      end := Put(buffer, end, MINUS);
      k := -k;
    }
    end := WriteDigits(k, buffer, end);
  }

  method FillZeros(buffer: array<byte>, at: nat, n: nat)
    requires at + n <= buffer.Length
    modifies buffer
    ensures buffer[..at + n] == old(buffer[..at]) + Zeros(n) && buffer[at + n..] == old(buffer[at + n..])
  {
    for i := 0 to n
      invariant buffer[..at + i] == old(buffer[..at]) + Zeros(i) && buffer[at + n..] == old(buffer[at + n..])
    {
      buffer[at + i] := ZERO;
      assert Zeros(i) + [ZERO] == Zeros(i + 1);
      assert buffer[..at + i + 1] == buffer[..at + i] + [ZERO];
    }
  }

  method MakeWhole(buffer: array<byte>, start: nat, length: nat, kk: nat) returns (end: nat)
    requires length <= kk && start + kk + 2 <= buffer.Length
    modifies buffer
    ensures end == start + kk + 2
    ensures buffer[..end] == old(buffer[..start]) + Whole(old(buffer[start..start + length]), kk - length)
  {
    ghost var pre, ds := buffer[..start], buffer[start..start + length];
    assert buffer[..start + length] == pre + ds;
    FillZeros(buffer, start + length, kk - length);
    end := Put(buffer, start + kk, DOT);
    end := Put(buffer, end, ZERO);
    assert pre + ds + Zeros(kk - length) + [DOT] + [ZERO] == pre + (ds + Zeros(kk - length) + [DOT, ZERO]);
  }

  method MakePointed(buffer: array<byte>, start: nat, length: nat, kk: nat) returns (end: nat)
    requires kk <= length && start + length + 1 <= buffer.Length
    modifies buffer
    ensures end == start + length + 1
    ensures buffer[..end] == old(buffer[..start]) + Pointed(old(buffer[start..start + length]), kk)
  {
    ghost var pre, ds := buffer[..start], buffer[start..start + length];
    PartsOfBuffer(buffer[..], start, length, kk);
    end := start + length + 1;
    OpenGap(buffer, start + kk, start + length);
    Associate(pre, ds[..kk], [DOT]);
    Associate(pre, ds[..kk] + [DOT], ds[kk..]);
  }

  lemma PartsOfBuffer(b: bytes, start: nat, length: nat, kk: nat)
    requires kk <= length && start + length <= |b|
    ensures b[..start + kk] == b[..start] + b[start..start + length][..kk]
    ensures b[start + kk..start + length] == b[start..start + length][kk..]
  {
  }

  /** Moves the bytes up to `end` one place on, and puts a point into the gap. */
  method OpenGap(buffer: array<byte>, at: nat, end: nat)
    requires at <= end < buffer.Length
    modifies buffer
    ensures buffer[..end + 1] == old(buffer[..at]) + [DOT] + old(buffer[at..end])
  {
    ghost var front, moved := buffer[..at], buffer[at..end];
    MemMove(buffer, at + 1, at, end - at);
    assert buffer[..at] == front;
    buffer[at] := DOT;
    assert buffer[..end + 1] == buffer[..at] + [buffer[at]] + buffer[at + 1..end + 1];
  }

  method MakeSmall(buffer: array<byte>, start: nat, length: nat, z: nat) returns (end: nat)
    requires start + length + z + 2 <= buffer.Length
    modifies buffer
    ensures end == start + length + z + 2
    ensures buffer[..end] == old(buffer[..start]) + Small(old(buffer[start..start + length]), z)
  {
    hide Zeros;
    var offset := 2 + z;
    ghost var pre, ds := buffer[..start], buffer[start..start + length];
    end := start + length + offset;
    MoveOn(buffer, start, length, start + offset);
    SetTwo(buffer, start, start + offset);
    FillZeros(buffer, start + 2, z);
    FrontAndBack(buffer[..], start + offset, end);
    assert buffer[..start + offset] == pre + [ZERO, DOT] + Zeros(z);
    SmallBehind(pre, ds, z);
  }

  method MoveOn(buffer: array<byte>, start: nat, length: nat, to: nat)
    requires start <= to && to + length <= buffer.Length
    modifies buffer
    ensures buffer[..start] == old(buffer[..start]) && buffer[to..][..length] == old(buffer[start..start + length])
  {
    ghost var pre := buffer[..start];
    MemMove(buffer, to, start, length);
    assert buffer[..start] == pre;
    assert buffer[to..][..length] == buffer[to..to + length];
  }

  lemma FrontAndBack(b: bytes, k: nat, end: nat)
    requires k <= end <= |b|
    ensures b[..end] == b[..k] + b[k..][..end - k]
  {
  }

  lemma SmallBehind(pre: bytes, ds: bytes, z: nat)
    ensures pre + [ZERO, DOT] + Zeros(z) + ds == pre + Small(ds, z)
  {
    hide Zeros;
    Associate(pre, [ZERO, DOT], Zeros(z));
    Associate(pre, [ZERO, DOT] + Zeros(z), ds);
  }

  /** "0." in front of what comes from `tail` on. */
  method SetTwo(buffer: array<byte>, at: nat, ghost tail: nat)
    requires at + 2 <= tail <= buffer.Length
    modifies buffer
    ensures buffer[..at + 2] == old(buffer[..at]) + [ZERO, DOT] && buffer[tail..] == old(buffer[tail..])
  {
    buffer[at] := ZERO;
    buffer[at + 1] := DOT;
  }

  method MakeScientific(buffer: array<byte>, start: nat, length: nat, x: int) returns (end: nat)
    requires 0 < length && -1000 < x < 1000 && start + length + 6 <= buffer.Length
    modifies buffer
    ensures end <= start + length + 6
    ensures buffer[..end] == old(buffer[..start]) + Scientific(old(buffer[start..start + length]), x)
  {
    hide Pointed, DecimalInt;
    ghost var pre, ds := buffer[..start], buffer[start..start + length];
    end := MakeMantissa(buffer, start, length);
    end := AppendExponent(buffer, end, x);
    Associate(pre, if |ds| == 1 then ds else Pointed(ds, 1), [EXPONENT] + DecimalInt(x));
  }

  method MakeMantissa(buffer: array<byte>, start: nat, length: nat) returns (end: nat)
    requires 0 < length && start + length + 1 <= buffer.Length
    modifies buffer
    ensures end <= start + length + 1
    ensures var ds := old(buffer[start..start + length]);
            buffer[..end] == old(buffer[..start]) + if length == 1 then ds else Pointed(ds, 1)
  {
    hide Pointed;
    end := start + 1;
    if length > 1 {
      end := MakePointed(buffer, start, length, 1);
    } else {
      assert buffer[..end] == buffer[..start] + buffer[start..end];
    }
  }

  method AppendExponent(buffer: array<byte>, at: nat, x: int) returns (end: nat)
    requires -1000 < x < 1000 && at + 5 <= buffer.Length
    modifies buffer
    ensures end <= at + 5 && buffer[..end] == old(buffer[..at]) + ([EXPONENT] + DecimalInt(x))
  {
    hide DecimalInt;
    ghost var front := buffer[..at];
    end := Put(buffer, at, EXPONENT);
    end := WriteExponent(x, buffer, end);
    Associate(front, [EXPONENT], DecimalInt(x));
  }

  /** Prettify, in place behind `start`: 24 bytes are enough for up to 17 digits. */
  method InPlace(buffer: array<byte>, start: nat, length: nat, k: int) returns (end: nat)
    requires 0 < length <= 17 && -1000 < length + k - 1 < 1000 && start + 24 <= buffer.Length
    modifies buffer
    ensures end <= start + 24
    ensures buffer[..end] == old(buffer[..start]) + Pretty(old(buffer[start..start + length]), k)
  {
    hide Whole, Pointed, Small, Scientific;
    var kk := length + k;
    if length <= kk <= 21 {
      end := MakeWhole(buffer, start, length, kk);
    } else if 0 < kk <= 21 {
      end := MakePointed(buffer, start, length, kk);
    } else if -6 < kk <= 0 {
      end := MakeSmall(buffer, start, length, -kk);
    } else {
      end := MakeScientific(buffer, start, length, kk - 1);
    }
  }
}
