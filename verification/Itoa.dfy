/** The branchy integer printers of internal/itoa.h, over a buffer: they write the canonical decimal text. */
module Itoa {
  import opened Streams
  import opened Events
  import opened Numbers

  /** cDigitsLut: the two digits of 00 to 99, side by side. */
  function DigitsLut(i: nat): byte
    requires i < 200
  {
    if i % 2 == 0 then ZERO + i / 2 / 10 else ZERO + i / 2 % 10
  }

  /** One digit, if it is wanted: leading zeros are not. Behind `pre`, the buffer spells `r` afterwards. */
  method Digit(buffer: array<byte>, p: nat, wanted: bool, c: byte, ghost pre: bytes, ghost r: nat) returns (end: nat)
    requires p < buffer.Length && buffer[..p] == pre + DigitsOf(r / 10)
    requires wanted <==> r > 0
    requires c == ZERO + r % 10
    modifies buffer
    ensures end == (if wanted then p + 1 else p) && buffer[..end] == pre + DigitsOf(r)
  {
    end := p;
    if wanted {
      buffer[p] := c;
      end := p + 1;
      assert buffer[..end] == buffer[..p] + [c];
      assert pre + DigitsOf(r / 10) + [c] == pre + (DigitsOf(r / 10) + [c]);
    }
  }

  /** The two digits d and d + 1 of the table, each under its condition, after `q`. */
  method Pair(buffer: array<byte>, p: nat, cc: uint32, w1: bool, w0: bool, ghost pre: bytes, ghost q: nat)
    returns (end: nat)
    requires p + 2 <= buffer.Length && cc < 100 && buffer[..p] == pre + DigitsOf(q)
    requires w1 <==> q > 0 || cc >= 10
    requires w0 <==> q > 0 || cc > 0
    modifies buffer
    ensures p <= end <= p + 2 && buffer[..end] == pre + DigitsOf(q * 100 + cc)
    ensures w0 ==> p < end
  {
    hide DigitsOf;
    ghost var h := q * 10 + cc / 10;
    assert h / 10 == q && h % 10 == cc / 10;
    assert (q * 100 + cc) / 10 == h && (q * 100 + cc) % 10 == cc % 10;
    var d := cc * 2;
    end := Digit(buffer, p, w1, DigitsLut(d), pre, h);
    end := Digit(buffer, end, w0, DigitsLut(d + 1), pre, q * 100 + cc);
  }

  /** The four digits of a block after `q`, each under its condition. */
  method Block(buffer: array<byte>, p: nat, c: uint32, w3: bool, w2: bool, w1: bool, w0: bool,
      ghost pre: bytes, ghost q: nat)
    returns (end: nat)
    requires p + 4 <= buffer.Length && c < 10000 && buffer[..p] == pre + DigitsOf(q)
    requires w3 <==> q > 0 || c >= 1000
    requires w2 <==> q > 0 || c >= 100
    requires w1 <==> q > 0 || c >= 10
    requires w0 <==> q > 0 || c > 0
    modifies buffer
    ensures p <= end <= p + 4 && buffer[..end] == pre + DigitsOf(q * 10000 + c)
    ensures w0 ==> p < end
  {
    hide DigitsOf;
    end := Pair(buffer, p, c / 100, w3, w2, pre, q);
    end := Pair(buffer, end, c % 100, w1, w0, pre, q * 100 + c / 100);
    assert (q * 100 + c / 100) * 100 + c % 100 == q * 10000 + c;
  }

  /** value < 10000: the only branch that may print a zero. */
  method SmallToa(value: uint32, buffer: array<byte>, start: nat) returns (end: nat)
    requires value < 10000 && start + 4 <= buffer.Length
    modifies buffer
    ensures start < end <= start + 4 && buffer[..end] == old(buffer[..start]) + Decimal(value)
  {
    hide DigitsOf, Decimal, DigitsLut;
    ghost var pre := buffer[..start];
    SmallDigits(value, pre);
    end := Pair(buffer, start, value / 100, value >= 1000, value >= 100, pre, 0);
    var d2 := value % 100 * 2;
    end := Digit(buffer, end, value >= 10, DigitsLut(d2), pre, value / 10);
    end := PutAt(buffer, end, DigitsLut(d2 + 1));
  }

  method PutAt(buffer: array<byte>, p: nat, c: byte) returns (end: nat)
    requires p < buffer.Length
    modifies buffer
    ensures end == p + 1 && buffer[..end] == old(buffer[..p]) + [c]
  {
    buffer[p] := c;
    end := p + 1;
  }

  lemma SmallDigits(value: nat, pre: bytes)
    ensures pre + DigitsOf(0) == pre
    ensures value / 10 / 10 == value / 100 && DigitsLut(value % 100 * 2) == ZERO + value / 10 % 10
    ensures pre + Decimal(value) == pre + DigitsOf(value / 10) + [DigitsLut(value % 100 * 2 + 1)]
  {
    DecimalByDigit(value);
    LastTwo(value);
    hide DigitsOf, Decimal, DigitsLut;
    assert pre + (DigitsOf(value / 10) + [(ZERO + value % 10) as byte]) == pre + DigitsOf(value / 10) + [(ZERO + value % 10) as byte];
  }

  lemma LastTwo(value: nat)
    ensures value / 10 / 10 == value / 100
    ensures DigitsLut(value % 100 * 2) == ZERO + value / 10 % 10 && DigitsLut(value % 100 * 2 + 1) == ZERO + value % 10
  {
    var q, r := value / 100, value % 100;
    assert value == 100 * q + r && value / 10 == 10 * q + r / 10;
  }

  lemma DecimalByDigit(value: nat)
    ensures DigitsOf(0) == []
    ensures Decimal(value) == DigitsOf(value / 10) + [(ZERO + value % 10) as byte]
  {
  }

  method U32ToA(value: uint32, buffer: array<byte>, start: nat) returns (end: nat)
    requires start + 10 <= buffer.Length
    modifies buffer
    ensures start < end <= start + 10 && buffer[..end] == old(buffer[..start]) + Decimal(value)
  {
    hide DigitsOf, Decimal;
    if value < 10000 {
      end := SmallToa(value, buffer, start);
    } else {
      ghost var pre := buffer[..start];
      BehindNothing(value, pre);
      if value < 100000000 {
        end := MiddleToa(value, buffer, start, pre);
      } else {
        var a := value / 100000000;
        var v := value % 100000000;
        end := TopDigits(a, buffer, start, pre);
        var b, c := v / 10000, v % 10000;
        end := Block(buffer, end, b, true, true, true, true, pre, a);
        end := Block(buffer, end, c, true, true, true, true, pre, a * 10000 + b);
      }
    }
  }

  /** 10000 <= value < 100000000: bbbbcccc without its leading zeros. */
  method MiddleToa(value: uint32, buffer: array<byte>, start: nat, ghost pre: bytes) returns (end: nat)
    requires 10000 <= value < 100000000 && start + 8 <= buffer.Length
    requires buffer[..start] == pre + DigitsOf(0)
    modifies buffer
    ensures start <= end <= start + 8 && buffer[..end] == pre + DigitsOf(value)
  {
    hide DigitsOf;
    var b, c := value / 10000, value % 10000;
    end := Block(buffer, start, b, value >= 10000000, value >= 1000000, value >= 100000, true, pre, 0);
    end := Block(buffer, end, c, true, true, true, true, pre, b);
  }

  /** The one or two digits of 1 to 99. */
  method TopDigits(a: uint32, buffer: array<byte>, start: nat, ghost pre: bytes) returns (end: nat)
    requires 0 < a < 100 && start + 2 <= buffer.Length
    requires buffer[..start] == pre + DigitsOf(0)
    modifies buffer
    ensures start < end <= start + 2 && buffer[..end] == pre + DigitsOf(a)
  {
    hide DigitsOf;
    if a >= 10 {
      end := Pair(buffer, start, a, true, true, pre, 0);
    } else {
      end := Digit(buffer, start, true, ZERO + a, pre, a);
    }
  }

  /** value = -value, which wraps INT_MIN to itself, and the conversion to an unsigned word. */
  function Magnitude32(value: int32): (u: uint32)
    requires value < 0
    ensures u == -(value as int)
  {
    Word32(Wrap32(-(value as int)))
  }

  function Magnitude64(value: int64): (u: uint64)
    requires value < 0
    ensures u == -(value as int)
  {
    Word64(Wrap64(-(value as int)))
  }

  method I32ToA(value: int32, buffer: array<byte>, start: nat) returns (end: nat)
    requires start + 11 <= buffer.Length
    modifies buffer
    ensures start < end <= start + 11 && buffer[..end] == old(buffer[..start]) + DecimalInt(value)
  {
    hide Decimal;
    if value < 0 {
      ghost var pre := buffer[..start];
      end := PutAt(buffer, start, MINUS);
      end := U32ToA(Magnitude32(value), buffer, end);
      Associate(pre, [MINUS], Decimal(-(value as int)));
    } else {
      end := U32ToA(value, buffer, start);
    }
  }

  const TEN8: nat := 1_0000_0000
  const TEN16: nat := 1_0000_0000_0000_0000

  lemma BehindNothing(value: nat, pre: bytes)
    requires value > 0
    ensures Decimal(value) == DigitsOf(value) && pre + DigitsOf(0) == pre
  {
  }

  lemma Recompose(value: nat)
    ensures var a, v := value / TEN16, value % TEN16;
            (a * TEN8 + v / TEN8) * TEN8 + v % TEN8 == value && v / TEN8 < TEN8
  {
  }

  method U64ToA(value: uint64, buffer: array<byte>, start: nat) returns (end: nat)
    requires start + 20 <= buffer.Length
    modifies buffer
    ensures start < end <= start + 20 && buffer[..end] == old(buffer[..start]) + Decimal(value)
  {
    hide DigitsOf, Decimal;
    ghost var pre := buffer[..start];
    if value < 10000 {
      end := SmallToa(value, buffer, start);
    } else {
      BehindNothing(value, pre);
      Recompose(value);
      if value < TEN8 {
        end := MiddleToa(value, buffer, start, pre);
      } else if value < TEN16 {
        end := SixteenToa(value, buffer, start, pre);
      } else {
        var a, v := value / TEN16, value % TEN16;
        end := TopFour(a, buffer, start, pre);
        end := Eight(v / TEN8, buffer, end, pre, a);
        end := Eight(v % TEN8, buffer, end, pre, a * TEN8 + v / TEN8);
      }
    }
  }

  /** 10^8 <= value < 10^16: the first eight of the sixteen digits under their conditions. */
  method SixteenToa(value: uint64, buffer: array<byte>, start: nat, ghost pre: bytes) returns (end: nat)
    requires TEN8 <= value < TEN16 && start + 16 <= buffer.Length
    requires buffer[..start] == pre + DigitsOf(0)
    modifies buffer
    ensures start < end <= start + 16 && buffer[..end] == pre + DigitsOf(value)
  {
    hide DigitsOf;
    var v0, v1 := value / TEN8, value % TEN8;
    var b0, c0 := v0 / 10000, v0 % 10000;
    end := Block(buffer, start, b0, value >= 1000_0000_0000_0000, value >= 100_0000_0000_0000,
                 value >= 10_0000_0000_0000, value >= 1_0000_0000_0000, pre, 0);
    end := Block(buffer, end, c0, value >= 1000_0000_0000, value >= 100_0000_0000,
                 value >= 10_0000_0000, value >= 1_0000_0000, pre, b0);
    end := Eight(v1, buffer, end, pre, v0);
  }

  /** Eight digits after `q`. */
  method Eight(v: uint32, buffer: array<byte>, start: nat, ghost pre: bytes, ghost q: nat) returns (end: nat)
    requires v < TEN8 && q > 0 && start + 8 <= buffer.Length
    requires buffer[..start] == pre + DigitsOf(q)
    modifies buffer
    ensures start <= end <= start + 8 && buffer[..end] == pre + DigitsOf(q * TEN8 + v)
  {
    hide DigitsOf;
    var b, c := v / 10000, v % 10000;
    end := Block(buffer, start, b, true, true, true, true, pre, q);
    end := Block(buffer, end, c, true, true, true, true, pre, q * 10000 + b);
  }

  /** The one to four digits of 1 to 1844. */
  method TopFour(a: uint32, buffer: array<byte>, start: nat, ghost pre: bytes) returns (end: nat)
    requires 0 < a < 10000 && start + 4 <= buffer.Length
    requires buffer[..start] == pre + DigitsOf(0)
    modifies buffer
    ensures start < end <= start + 4 && buffer[..end] == pre + DigitsOf(a)
  {
    hide DigitsOf;
    if a < 100 {
      end := TopDigits(a, buffer, start, pre);
    } else if a < 1000 {
      end := Digit(buffer, start, true, ZERO + a / 100, pre, a / 100);
      end := Pair(buffer, end, a % 100, true, true, pre, a / 100);
    } else {
      end := Block(buffer, start, a, true, true, true, true, pre, 0);
    }
  }

  method I64ToA(value: int64, buffer: array<byte>, start: nat) returns (end: nat)
    requires start + 21 <= buffer.Length
    modifies buffer
    ensures start < end <= start + 21 && buffer[..end] == old(buffer[..start]) + DecimalInt(value)
  {
    hide Decimal;
    if value < 0 {
      ghost var pre := buffer[..start];
      end := PutAt(buffer, start, MINUS);
      end := U64ToA(Magnitude64(value), buffer, end);
      Associate(pre, [MINUS], Decimal(-(value as int)));
    } else {
      end := U64ToA(value, buffer, start);
    }
  }
}
