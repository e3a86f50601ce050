/** The integer half of Grisu2: digits of an interval's upper end until they fall into the interval, and the last digit
    lowered to come closest to the number itself (internal/dtoa.h). */
module Grisu {
  import opened Streams
  import opened Events
  import opened Numbers
  import opened DiyFps

  function Pow10(n: nat): (p: nat)
    ensures p > 0
  {
    if n == 0 then 1 else 10 * Pow10(n - 1)
  }

  function Pow2(n: nat): (p: nat)
    ensures p > 0
  {
    if n == 0 then 1 else 2 * Pow2(n - 1)
  }

  lemma Pow2Eight(n: nat)
    ensures Pow2(n + 8) == 256 * Pow2(n)
  {
    assert Pow2(n + 8) == 4 * Pow2(n + 6) && Pow2(n + 6) == 4 * Pow2(n + 4);
    assert Pow2(n + 4) == 4 * Pow2(n + 2) && Pow2(n + 2) == 4 * Pow2(n);
  }

  lemma {:induction false} Pow2Up(n: nat, m: nat)
    requires n <= m
    ensures Pow2(n) <= Pow2(m)
    decreases m
  {
    if n < m {
      Pow2Up(n, m - 1);
    }
  }

  lemma Pow2Between(n: nat)
    requires 32 <= n <= 60
    ensures TWO_32 <= Pow2(n) <= 0x1000_0000_0000_0000
  {
    Pow2Ends();
    hide Pow2;
    Pow2Up(32, n);
    Pow2Up(n, 60);
  }

  lemma Pow2Ends()
    ensures Pow2(32) == TWO_32 && Pow2(60) == 0x1000_0000_0000_0000
  {
    assert Pow2(4) == 16;
    hide Pow2;
    Pow2Eight(4);
    Pow2Eight(12);
    Pow2Eight(20);
    Pow2Eight(28);
    Pow2Eight(36);
    Pow2Eight(44);
    Pow2Eight(52);
    Pow2Four(28);
  }

  lemma Pow2Four(n: nat)
    ensures Pow2(n + 4) == 16 * Pow2(n)
  {
    assert Pow2(n + 4) == 4 * Pow2(n + 2) && Pow2(n + 2) == 4 * Pow2(n);
  }

  const POWERS_OF_10: seq<uint32> := [1, 10, 100, 1000, 10000, 100000, 1000000, 10000000, 100000000, 1000000000]

  lemma {:induction false} TableIsPow10(n: nat)
    requires n < |POWERS_OF_10|
    ensures POWERS_OF_10[n] == Pow10(n)
  {
    if n > 0 {
      TableIsPow10(n - 1);
    }
  }

  function Abs(x: int): nat {
    if x < 0 then -x else x
  }

  // ---------------------------------------------------------------- what the digits are to mean

  /** 10^kappa as a fraction. */
  function Up(kappa: int): nat {
    if kappa >= 0 then Pow10(kappa) else 1
  }

  function Down(kappa: int): nat {
    if kappa < 0 then Pow10(-kappa) else 1
  }

  /** Whether D * 10^kappa lies in the interval of width delta below M; M and delta count units of 1 / one. */
  predicate Within(M: nat, delta: nat, one: nat, kappa: int, D: nat) {
    (M - delta) * Down(kappa) <= D * (Up(kappa) * one) <= M * Down(kappa)
  }

  /** How far D * 10^kappa is from w. */
  function Distance(w: nat, one: nat, kappa: int, D: nat): nat {
    Abs(D * (Up(kappa) * one) - w * Down(kappa))
  }

  /** Whether D lies in the interval and no number of as many digits in it is closer to w. */
  ghost predicate Best(M: nat, w: nat, delta: nat, one: nat, kappa: int, D: nat) {
    && Within(M, delta, one, kappa, D)
    && forall D': nat | Within(M, delta, one, kappa, D') :: Distance(w, one, kappa, D) <= Distance(w, one, kappa, D')
  }

  /** Whether D * 10^kappa lies above the lower end of the interval. */
  predicate Inside(M: nat, delta: nat, one: nat, kappa: int, D: nat) {
    (M - delta) * Down(kappa) < D * (Up(kappa) * one) <= M * Down(kappa)
  }

  ghost predicate NoneInside(M: nat, delta: nat, one: nat, kappa: int) {
    forall D: nat :: !Inside(M, delta, one, kappa, D)
  }

  /** Whether no number with fewer digits lies there. */
  ghost predicate Shortest(M: nat, delta: nat, one: nat, kappa: int) {
    forall k | k > kappa :: NoneInside(M, delta, one, k)
  }

  lemma TenMore(M: nat, delta: nat, one: nat, kappa: int, D: nat)
    requires Inside(M, delta, one, kappa + 1, D)
    ensures Inside(M, delta, one, kappa, 10 * D)
  {
    if kappa >= 0 {
      assert Pow10(kappa + 1) == 10 * Pow10(kappa);
      TenTogether(D, Pow10(kappa), one);
    } else {
      assert Pow10(-kappa) == 10 * Pow10(-kappa - 1);
      TimesTen(M - delta, M, D * (Up(kappa + 1) * one), Pow10(-kappa - 1));
    }
  }

  lemma TenTogether(d: nat, p: nat, one: nat)
    ensures d * (10 * p * one) == 10 * d * (p * one)
  {
    assert 10 * p * one == 10 * (p * one);
  }

  lemma TimesTen(a: int, b: int, x: int, p: int)
    requires a * p < x <= b * p
    ensures a * (10 * p) < 10 * x <= b * (10 * p)
  {
  }

  /** One more digit may be needed only if none lies there without it. */
  lemma {:induction false} ShortestFrom(M: nat, delta: nat, one: nat, kappa: int, k: int)
    requires k > kappa && NoneInside(M, delta, one, kappa + 1)
    ensures NoneInside(M, delta, one, k)
    decreases k - kappa
  {
    hide Inside;
    if k > kappa + 1 {
      ShortestFrom(M, delta, one, kappa, k - 1);
      forall D: nat ensures !Inside(M, delta, one, k, D) {
        if Inside(M, delta, one, k, D) {
          TenMore(M, delta, one, k - 1, D);
        }
      }
    }
  }

  lemma IsShortest(M: nat, delta: nat, one: nat, kappa: int)
    requires NoneInside(M, delta, one, kappa + 1)
    ensures Shortest(M, delta, one, kappa)
  {
    hide NoneInside;
    forall k | k > kappa ensures NoneInside(M, delta, one, k) {
      ShortestFrom(M, delta, one, kappa, k);
    }
  }

  // ---------------------------------------------------------------- GrisuRound

  /** The guard of its loop; the types say that no 64-bit step overflows. */
  predicate Lowers(rest: uint64, delta: uint64, tenKappa: uint64, wpW: uint64)
    requires rest <= delta
  {
    && rest < wpW && delta - rest >= tenKappa
    && var next: uint64 := rest + tenKappa;
    && (next < wpW || wpW - rest > next - wpW)
  }

  lemma Multiples(i: nat, j: nat, t: nat)
    requires i < j
    ensures i * t + t <= j * t
  {
    MulUp(i + 1, t, j, t);
    assert (i + 1) * t == i * t + t;
  }

  /** Whether lowering j times leaves a rest within delta, and none within it is closer to wp_w. */
  ghost predicate Nearest(rest0: nat, tenKappa: nat, wpW: nat, delta: nat, j: nat) {
    && rest0 + j * tenKappa <= delta
    && forall i: nat | rest0 + i * tenKappa <= delta ::
         Abs(rest0 + j * tenKappa - wpW) <= Abs(rest0 + i * tenKappa - wpW)
  }

  /** Whether delta is out of reach of the rest that the digit d was taken from. */
  predicate Beyond(rest0: nat, tenKappa: nat, delta: nat, d: nat) {
    delta <= rest0 + d * tenKappa
  }

  /** The last digit is lowered j times: as often as brings the rest closest to wp_w without leaving delta. */
  method GrisuRound(buffer: array<byte>, last: nat, delta: uint64, rest0: uint64, tenKappa: uint64, wpW: uint64)
    returns (ghost j: nat)
    requires last < buffer.Length && IsDigit(buffer[last]) && tenKappa > 0
    requires rest0 <= delta && Beyond(rest0, tenKappa, delta, buffer[last] - ZERO)
    modifies buffer
    ensures j <= old(buffer[last]) - ZERO && buffer[..] == old(buffer[..])[last := old(buffer[last]) - j]
    ensures Nearest(rest0, tenKappa, wpW, delta, j)
  {
    ghost var digit := buffer[last] - ZERO;
    j := 0;
    var rest := rest0;
    while Lowers(rest, delta, tenKappa, wpW)
      invariant j <= digit && buffer[..] == old(buffer[..])[last := old(buffer[last]) - j]
      invariant rest == rest0 + j * tenKappa <= delta
      invariant forall i: nat | i <= j :: Abs(rest - wpW) <= Abs(rest0 + i * tenKappa - wpW)
      decreases delta - rest
    {
      assert j < digit;
      assert (j + 1) * tenKappa == j * tenKappa + tenKappa;
      buffer[last] := buffer[last] - 1;
      rest := rest + tenKappa;
      j := j + 1;
    }
    forall i: nat | rest0 + i * tenKappa <= delta
      ensures Abs(rest - wpW) <= Abs(rest0 + i * tenKappa - wpW)
    {
      if i > j {
        Multiples(j, i, tenKappa);
      }
    }
  }

  /** What the loops hand to GrisuRound: every length times 10^-kappa where kappa is negative. */
  ghost predicate Fallen(M: nat, w: nat, delta0: nat, one: nat, kappa: int, D: nat, delta: nat, rest: nat, tenKappa: nat, wpW: nat) {
    && w <= M && delta0 < M
    && tenKappa == Up(kappa) * one && delta == delta0 * Down(kappa) && wpW == (M - w) * Down(kappa)
    && D * tenKappa + rest == M * Down(kappa) && rest < tenKappa
  }

  /** What a rounding means for the number the digits spell. */
  lemma RoundedIsBest(M: nat, w: nat, delta0: nat, one: nat, kappa: int, D: nat, delta: nat, rest: nat, tenKappa: nat, wpW: nat, j: nat)
    requires Fallen(M, w, delta0, one, kappa, D, delta, rest, tenKappa, wpW) && j <= D
    requires Nearest(rest, tenKappa, wpW, delta, j)
    ensures Best(M, w, delta0, one, kappa, D - j) && j < D
  {
    hide Up, Down, Abs, Within, Nearest;
    WithinIs(M, w, delta0, one, kappa, D, delta, rest, tenKappa, wpW, D - j);
    assert rest + j * tenKappa <= delta by { NearestAt(rest, tenKappa, wpW, delta, j, j); }
    forall D': nat | Within(M, delta0, one, kappa, D')
      ensures Distance(w, one, kappa, D - j) <= Distance(w, one, kappa, D')
    {
      WithinIs(M, w, delta0, one, kappa, D, delta, rest, tenKappa, wpW, D');
      NearestAt(rest, tenKappa, wpW, delta, j, D - D');
    }
    NotZero(M, delta0, one, kappa);
  }

  lemma NearestAt(rest: nat, tenKappa: nat, wpW: nat, delta: nat, j: nat, i: nat)
    requires Nearest(rest, tenKappa, wpW, delta, j)
    ensures rest + j * tenKappa <= delta
    ensures rest + i * tenKappa <= delta ==> Abs(rest + j * tenKappa - wpW) <= Abs(rest + i * tenKappa - wpW)
  {
  }

  lemma NotZero(M: nat, delta: nat, one: nat, kappa: int)
    requires delta < M
    ensures !Within(M, delta, one, kappa, 0)
  {
    assert Down(kappa) >= 1;
    hide Down, Up;
    MulUp(1, 1, M - delta, Down(kappa));
  }

  /** Lying in the interval, and the distance to w, as they are seen from M. */
  lemma WithinIs(M: nat, w: nat, delta0: nat, one: nat, kappa: int, D: nat, delta: nat, rest: nat, tenKappa: nat, wpW: nat, D': nat)
    requires Fallen(M, w, delta0, one, kappa, D, delta, rest, tenKappa, wpW)
    ensures Within(M, delta0, one, kappa, D') <==> D' <= D && rest + (D - D') * tenKappa <= delta
    ensures D' <= D ==> Distance(w, one, kappa, D') == Abs(rest + (D - D') * tenKappa - wpW)
  {
    hide Up, Down;
    var v := Down(kappa);
    assert (M - delta0) * v == M * v - delta0 * v && (M - w) * v == M * v - w * v;
    if D' <= D {
      assert (D - D') * tenKappa == D * tenKappa - D' * tenKappa;
      assert D' * tenKappa - w * v == -(rest + (D - D') * tenKappa - wpW);
    } else {
      Multiples(D, D', tenKappa);
    }
  }

  // ---------------------------------------------------------------- the digits in the buffer

  /** The digits a number is spelled with, the first of them not zero. */
  predicate Spells(ds: bytes, D: nat) {
    AllDigits(ds) && ValueFrom(0, ds) == D && (ds != [] ==> ds[0] != ZERO)
  }

  /** One more digit, unless it would be a leading zero. */
  method AppendDigit(buffer: array<byte>, start: nat, len: nat, d: nat, ghost D: nat) returns (len': nat)
    requires start + len < buffer.Length && d < 10 && Spells(buffer[start..start + len], D)
    modifies buffer
    ensures buffer[..start] == old(buffer[..start]) && len <= len' <= len + 1
    ensures Spells(buffer[start..start + len'], 10 * D + d)
    ensures d > 0 ==> len' == len + 1 && buffer[start + len] == ZERO + d
  {
    len' := len;
    ghost var ds := buffer[start..start + len];
    if d != 0 || len != 0 {
      buffer[start + len] := ZERO + d;
      len' := len + 1;
      assert buffer[start..start + len'] == ds + [ZERO + d];
      ValueOfAppend(0, ds, ZERO + d);
    }
  }

  lemma {:induction false} LowerLast(n: nat, ds: bytes, j: nat)
    requires AllDigits(ds) && ds != [] && j <= ds[|ds| - 1] - ZERO
    ensures var ds' := ds[|ds| - 1 := ds[|ds| - 1] - j];
            AllDigits(ds') && ValueFrom(n, ds') == ValueFrom(n, ds) - j
  {
    var init, last := ds[..|ds| - 1], ds[|ds| - 1];
    assert ds == init + [last] && ds[|ds| - 1 := last - j] == init + [(last - j) as byte];
    ValueOfAppend(n, init, last);
    ValueOfAppend(n, init, last - j);
  }

  /** Lowering the last digit leaves a spelling, unless nothing is left. */
  lemma LowerSpelling(ds: bytes, D: nat, j: nat)
    requires Spells(ds, D) && ds != [] && j <= ds[|ds| - 1] - ZERO && j < D
    ensures Spells(ds[|ds| - 1 := ds[|ds| - 1] - j], D - j)
  {
    LowerLast(0, ds, j);
    if |ds| == 1 {
      assert ValueFrom(0, ds) == ds[0] - ZERO;
    }
  }

  function CountDecimalDigit32(n: uint32): (r: nat)
    ensures 1 <= r <= 10 && n < Pow10(r) && (r > 1 ==> Pow10(r - 1) <= n)
  {
    SmallPowers();
    if n < 10 then 1
    else if n < 100 then 2
    else if n < 1000 then 3
    else if n < 10000 then 4
    else if n < 100000 then 5
    else if n < 1000000 then 6
    else if n < 10000000 then 7
    else if n < 100000000 then 8
    else if n < 1000000000 then 9
    else 10
  }

  lemma SmallPowers()
    ensures Pow10(1) == 10 && Pow10(2) == 100 && Pow10(3) == 1000 && Pow10(4) == 10000 && Pow10(5) == 100000
    ensures Pow10(6) == 1000000 && Pow10(7) == 10000000 && Pow10(8) == 100000000 && Pow10(9) == 1000000000
    ensures Pow10(10) == 10000000000
  {
    assert Pow10(5) == 100000 by { assert Pow10(2) == 100; assert Pow10(4) == 100 * Pow10(2); }
    assert Pow10(7) == 100 * Pow10(5) && Pow10(9) == 100 * Pow10(7);
  }

  // ---------------------------------------------------------------- DigitGen

  lemma Division(p: nat, t: nat)
    requires t > 0
    ensures p == p / t * t + p % t && 0 <= p % t < t && p / t >= 0
    ensures p < 10 * t ==> p / t < 10
  {
    if p / t >= 10 {
      assert (p / t - 10) * t >= 0;
    }
  }

  /** One digit of the integer part: what is left of M does not change. */
  lemma IntegerDigit(M: nat, one: nat, p1: nat, p2: nat, D: nat, k: nat)
    requires M == (D * Pow10(k + 1) + p1) * one + p2 && p1 < Pow10(k + 1) && p2 < one
    ensures var d, q := p1 / Pow10(k), p1 % Pow10(k);
            && d < 10 && q < Pow10(k)
            && M == ((10 * D + d) * Pow10(k) + q) * one + p2
            && p1 * one + p2 == d * (Pow10(k) * one) + (q * one + p2)
            && q * one + p2 < Pow10(k) * one
            && (10 * D + d) * (Pow10(k) * one) + (q * one + p2) == M
  {
    var t := Pow10(k);
    var d, q := p1 / t, p1 % t;
    assert Pow10(k + 1) == 10 * t;
    hide Pow10;
    Division(p1, t);
    assert D * (10 * t) + p1 == (10 * D + d) * t + q;
    Regroup(10 * D + d, t, q, one);
    Regroup(d, t, q, one);
    Multiples(q, t, one);
  }

  lemma Regroup(x: nat, t: nat, q: nat, one: nat)
    ensures (x * t + q) * one == x * (t * one) + q * one
  {
    assert (x * t + q) * one == x * t * one + q * one;
    assert x * t * one == x * (t * one);
  }

  /** One digit of the fraction. */
  lemma FractionDigit(M: nat, one: nat, p2: nat, D: nat, n: nat)
    requires one > 0 && p2 < one && M * Pow10(n) == D * one + p2
    ensures var d, q := p2 * 10 / one, p2 * 10 % one;
            d < 10 && q < one && p2 * 10 == d * one + q && M * Pow10(n + 1) == (10 * D + d) * one + q
  {
    var d, q := p2 * 10 / one, p2 * 10 % one;
    Division(p2 * 10, one);
    assert M * Pow10(n + 1) == 10 * (M * Pow10(n));
    assert (10 * D + d) * one == 10 * (D * one) + d * one;
  }

  lemma LastDigitAtMost(ds: bytes)
    requires AllDigits(ds) && ds != []
    ensures ds[|ds| - 1] - ZERO <= ValueFrom(0, ds)
  {
    assert ds == ds[..|ds| - 1] + [ds[|ds| - 1]];
    ValueOfAppend(0, ds[..|ds| - 1], ds[|ds| - 1]);
  }

  /** The digits have fallen into the interval: the last one is lowered. */
  method Round(buffer: array<byte>, start: nat, len: nat, delta: uint64, rest: uint64, tenKappa: uint64, wpW: uint64,
      ghost M: nat, ghost w: nat, ghost delta0: nat, ghost one: nat, ghost kappa: int, ghost D: nat)
    returns (ghost D': nat)
    requires 0 < len && start + len <= buffer.Length && Spells(buffer[start..start + len], D)
    requires Fallen(M, w, delta0, one, kappa, D, delta, rest, tenKappa, wpW)
    requires tenKappa > 0 && rest <= delta && Beyond(rest, tenKappa, delta, buffer[start + len - 1] - ZERO)
    modifies buffer
    ensures buffer[..start] == old(buffer[..start])
    ensures Spells(buffer[start..start + len], D') && Best(M, w, delta0, one, kappa, D')
  {
    hide Fallen, Beyond, Nearest, Best;
    ghost var ds := buffer[start..start + len];
    assert IsDigit(ds[len - 1]);
    LastDigitAtMost(ds);
    ghost var j := GrisuRound(buffer, start + len - 1, delta, rest, tenKappa, wpW);
    RoundedIsBest(M, w, delta0, one, kappa, D, delta, rest, tenKappa, wpW, j);
    D' := D - j;
    LowerSpelling(ds, D, j);
    assert buffer[start..start + len] == ds[len - 1 := ds[len - 1] - j];
  }

  /** Whether the digits fall into the interval at the n-th digit of the fraction. */
  predicate Hit(M: nat, delta: nat, one: nat, n: nat)
    requires one > 0
  {
    M * Pow10(n) % one < delta * Pow10(n)
  }

  /** Whether they do before the table of powers ends: DigitGen indexes it with the number of digits of the fraction. */
  ghost predicate InTable(M: nat, delta: nat, one: nat)
    requires one > 0
  {
    M % one <= delta || exists n: nat :: n < |POWERS_OF_10| && n > 0 && Hit(M, delta, one, n)
  }

  lemma Remainder(x: nat, one: nat, D: nat, q: nat)
    requires one > 0 && x == D * one + q && q < one
    ensures x % one == q
  {
    Division(x, one);
    if x / one < D { Multiples(x / one, D, one); }
    if D < x / one { Multiples(D, x / one, one); }
  }

  // ---- the integer part

  /** A shift to the left by -one.e. */
  function Shl(x: nat, one: nat): nat {
    x * one
  }

  /** What is known between two digits of the integer part. */
  predicate InInteger(M: nat, one: nat, delta: nat, p1: nat, p2: nat, D: nat, kappa: nat) {
    && M == (D * Pow10(kappa) + p1) * one + p2 && p1 < Pow10(kappa) && p2 < one
    && delta < p1 * one + p2
  }

  lemma IntegerStarts(M: nat, one: nat, delta: nat, kappa: nat)
    requires one > 0 && M / one < Pow10(kappa) && delta < M
    ensures InInteger(M, one, delta, M / one, M % one, 0, kappa)
  {
    Division(M, one);
  }

  /** One more digit d leaves q: either the rest is still beyond delta, ... */
  lemma IntegerGoesOn(M: nat, one: nat, delta: nat, p1: nat, p2: nat, D: nat, k: nat, d: nat, q: nat)
    requires InInteger(M, one, delta, p1, p2, D, k + 1) && d == p1 / Pow10(k) && q == p1 % Pow10(k)
    ensures d < 10 && Shl(q, one) + p2 <= M
    ensures Shl(q, one) + p2 > delta ==> InInteger(M, one, delta, q, p2, 10 * D + d, k)
  {
    IntegerDigit(M, one, p1, p2, D, k);
    hide Pow10;
    MulUp(0, 0, 10 * D + d, Pow10(k) * one);
  }

  /** ... or rounding may begin. */
  lemma IntegerStops(M: nat, w: nat, one: nat, delta: nat, p1: nat, p2: nat, D: nat, k: nat, d: nat, q: nat)
    requires InInteger(M, one, delta, p1, p2, D, k + 1) && d == p1 / Pow10(k) && q == p1 % Pow10(k)
    requires Shl(q, one) + p2 <= delta && w <= M && delta < M
    ensures d > 0 && 0 < Shl(Pow10(k), one) <= M
    ensures Fallen(M, w, delta, one, k, 10 * D + d, delta, Shl(q, one) + p2, Shl(Pow10(k), one), M - w)
    ensures Beyond(Shl(q, one) + p2, Shl(Pow10(k), one), delta, d)
  {
    hide Fallen;
    IntegerDigit(M, one, p1, p2, D, k);
    BeyondOne(M, one, delta, 10 * D + d, d, k, q * one + p2);
    IntegerFallen(M, w, one, delta, 10 * D + d, k, q * one + p2);
  }

  lemma BeyondOne(M: nat, one: nat, delta: nat, D: nat, d: nat, k: nat, tmp: nat)
    requires D * (Pow10(k) * one) + tmp == M && tmp < Pow10(k) * one && d <= D
    requires tmp <= delta < d * (Pow10(k) * one) + tmp
    ensures d > 0 && 0 < Pow10(k) * one <= M && Beyond(tmp, Pow10(k) * one, delta, d)
  {
    hide Pow10;
    var t := Pow10(k) * one;
    assert d == 0 ==> d * t == 0;
    MulUp(1, t, D, t);
  }

  lemma IntegerFallen(M: nat, w: nat, one: nat, delta: nat, D: nat, k: nat, tmp: nat)
    requires D * (Pow10(k) * one) + tmp == M && tmp < Pow10(k) * one && w <= M && delta < M
    ensures Fallen(M, w, delta, one, k, D, delta, tmp, Pow10(k) * one, M - w)
  {
    hide Pow10;
    assert Up(k) == Pow10(k) && Down(k) == 1;
  }

  /** As long as the rest is beyond delta, no number with so few digits lies in the interval. */
  lemma IntegerNeeded(M: nat, one: nat, delta: nat, p1: nat, p2: nat, D: nat, kappa: nat)
    requires one > 0 && InInteger(M, one, delta, p1, p2, D, kappa)
    ensures NoneInside(M, delta, one, kappa)
  {
    var t := Pow10(kappa) * one;
    Regroup(D, Pow10(kappa), p1, one);
    assert M == D * t + (p1 * one + p2);
    forall D': nat ensures !Inside(M, delta, one, kappa, D') {
      if D' > D {
        assert p1 * one + one <= t by { MulUp(p1 + 1, one, Pow10(kappa), one); }
        MulUp(D + 1, t, D', t);
      } else {
        MulUp(D', t, D, t);
      }
    }
  }

  lemma IntegerEnds(M: nat, one: nat, delta: nat, p1: nat, p2: nat, D: nat)
    requires InInteger(M, one, delta, p1, p2, D, 0)
    ensures D * one + p2 == M && delta < p2 < one && M % one == p2
  {
    assert p1 == 0 && D * Pow10(0) == D;
    Remainder(M, one, D, p2);
  }

  /** The first loop: the digits of the integer part, as far as they are needed. */
  method IntegerDigits(M: uint64, w: uint64, one: uint64, delta: uint64, buffer: array<byte>, start: nat)
    returns (done: bool, len: nat, kappa: int, p2: uint64, ghost D: nat)
    requires TWO_32 <= one && w <= M && delta < M && start + 10 <= buffer.Length
    modifies buffer
    ensures len <= 10 && buffer[..start] == old(buffer[..start]) && Spells(buffer[start..start + len], D)
    ensures done <==> M % one <= delta
    ensures done ==> len > 0 && kappa >= 0 && Best(M, w, delta, one, kappa, D) && Shortest(M, delta, one, kappa)
    ensures !done ==> kappa == 0 && D * one + p2 == M && delta < p2 < one && M % one == p2
  {
    hide Best, Spells, Pow10, InInteger, Fallen, Beyond, Shl, Shortest, NoneInside;
    HighPart(M, one);
    var p1: uint32;
    p1, p2 := M / one, M % one;
    kappa := CountDecimalDigit32(p1);
    len, D := 0, 0;
    IntegerStarts(M, one, delta, kappa);
    NothingSpellsZero();
    assert buffer[start..start + len] == [];
    while kappa > 0
      invariant 0 <= kappa <= 10 && len + kappa <= 10
      invariant InInteger(M, one, delta, p1, p2, D, kappa) && p2 == M % one
      invariant Spells(buffer[start..start + len], D) && buffer[..start] == old(buffer[..start])
    {
      TableIsPow10(kappa - 1);
      var d: nat := p1 / POWERS_OF_10[kappa - 1];
      var q: uint32 := p1 % POWERS_OF_10[kappa - 1];
      IntegerGoesOn(M, one, delta, p1, p2, D, kappa - 1, d, q);
      if Shl(q, one) + p2 <= delta {
        IntegerStops(M, w, one, delta, p1, p2, D, kappa - 1, d, q);
        IntegerNeeded(M, one, delta, p1, p2, D, kappa);
        IsShortest(M, delta, one, kappa - 1);
      }
      p1 := q;
      len := AppendDigit(buffer, start, len, d, D);
      kappa, D := kappa - 1, 10 * D + d;
      var tmp: uint64 := Shl(p1, one) + p2;
      if tmp <= delta {
        var tenKappa: uint64 := Shl(POWERS_OF_10[kappa], one);
        D := Round(buffer, start, len, delta, tmp, tenKappa, M - w, M, w, delta, one, kappa, D);
        return true, len, kappa, p2, D;
      }
    }
    IntegerEnds(M, one, delta, p1, p2, D);
    done := false;
  }

  lemma HighPart(M: uint64, one: uint64)
    requires TWO_32 <= one
    ensures 0 <= M / one < TWO_32 && 0 <= M % one < one
  {
    Division(M, one);
    if M / one >= TWO_32 {
      MulUp(TWO_32, TWO_32, M / one, one);
    }
  }

  lemma NothingSpellsZero()
    ensures Spells([], 0)
  {
  }

  // ---- the fraction

  /** What is known after n digits of the fraction. */
  predicate InFraction(M: nat, one: nat, delta0: nat, p2: nat, delta: nat, D: nat, n: nat) {
    M * Pow10(n) == D * one + p2 && delta == delta0 * Pow10(n) && delta <= p2 < one
  }

  lemma FractionStarts(M: nat, one: nat, delta: nat, p2: nat, D: nat)
    requires D * one + p2 == M && delta < p2 < one
    ensures InFraction(M, one, delta, p2, delta, D, 0)
  {
    assert Pow10(0) == 1;
  }

  /** One more digit d leaves q: either the rest is still not below delta, ... */
  lemma FractionGoesOn(M: nat, one: nat, delta0: nat, p2: nat, delta: nat, D: nat, n: nat, d: nat, q: nat)
    requires InFraction(M, one, delta0, p2, delta, D, n) && d == p2 * 10 / one && q == p2 * 10 % one
    ensures d < 10 && q < one && p2 * 10 == d * one + q
    ensures M * Pow10(n + 1) == (10 * D + d) * one + q && delta * 10 == delta0 * Pow10(n + 1)
    ensures Hit(M, delta0, one, n + 1) <==> q < delta * 10
    ensures q >= delta * 10 ==> InFraction(M, one, delta0, q, delta * 10, 10 * D + d, n + 1)
  {
    FractionDigit(M, one, p2, D, n);
    Remainder(M * Pow10(n + 1), one, 10 * D + d, q);
    assert delta0 * Pow10(n + 1) == 10 * (delta0 * Pow10(n));
  }

  /** ... or rounding may begin. */
  lemma FractionStops(M: nat, w: nat, one: nat, delta0: nat, p2: nat, delta: nat, D: nat, n: nat, d: nat, q: nat)
    requires InFraction(M, one, delta0, p2, delta, D, n) && d == p2 * 10 / one && q == p2 * 10 % one
    requires q < delta * 10 && w <= M && M - w <= delta0 < M
    ensures d > 0 && 0 <= (M - w) * Pow10(n + 1) <= delta * 10
    ensures Fallen(M, w, delta0, one, -(n + 1), 10 * D + d, delta * 10, q, one, (M - w) * Pow10(n + 1))
    ensures Beyond(q, one, delta * 10, d)
  {
    FractionGoesOn(M, one, delta0, p2, delta, D, n, d, q);
    hide Pow10;
    MulUp(M - w, Pow10(n + 1), delta0, Pow10(n + 1));
    assert d == 0 ==> d * one == 0;
  }

  /** So far the digits of the fraction have not fallen into the interval, so there are few of them yet. */
  lemma FewSoFar(M: uint64, one: nat, delta0: nat, p2: nat, delta: nat, D: nat, n: nat, ds: bytes)
    requires InFraction(M, one, delta0, p2, delta, D, n) && delta0 > 0 && Spells(ds, D)
    ensures |ds| <= 20 && delta < one
  {
    hide Spells, Pow10;
    assert delta0 * Pow10(n) >= Pow10(n);
    LessThanOne(M, one, Pow10(n), D, p2);
    SpellingIsShort(ds, D);
  }

  lemma LessThanOne(M: nat, one: nat, p: nat, D: nat, p2: nat)
    requires M * p == D * one + p2 && p < one
    ensures D <= M
  {
    if D > M {
      Multiples(M, D, one);
      MulUp(M, p, M, one);
    }
  }

  lemma SpellingIsShort(ds: bytes, D: nat)
    requires Spells(ds, D) && D < TWO_64
    ensures |ds| <= 20
  {
    if |ds| > 20 {
      LongIsLarge(ds[0] - ZERO, ds[1..]);
      PowersUp(20, |ds| - 1);
      LargePowers();
    }
  }

  lemma LongIsLarge(n: nat, ds: bytes)
    requires AllDigits(ds) && n > 0
    ensures ValueFrom(n, ds) >= Pow10(|ds|)
  {
    hide Pow10, ValueFrom;
    LongerIsLarger(n, ds);
    MulUp(1, Pow10(|ds|), n, Pow10(|ds|));
  }

  lemma {:induction false} LongerIsLarger(n: nat, ds: bytes)
    requires AllDigits(ds)
    ensures ValueFrom(n, ds) >= n * Pow10(|ds|)
    decreases |ds|
  {
    if ds == [] {
      assert n * Pow10(0) == n;
    } else {
      var n', p := n * 10 + (ds[0] - ZERO), Pow10(|ds| - 1);
      LongerIsLarger(n', ds[1..]);
      TimesPower(n, n', p);
    }
  }

  lemma TimesPower(n: nat, n': nat, p: nat)
    requires n' >= n * 10
    ensures n' * p >= n * (10 * p)
  {
    MulUp(n * 10, p, n', p);
    assert n * 10 * p == n * (10 * p);
  }

  lemma {:induction false} PowersUp(n: nat, m: nat)
    requires n <= m
    ensures Pow10(n) <= Pow10(m)
    decreases m
  {
    if n < m {
      PowersUp(n, m - 1);
    }
  }

  lemma LargePowers()
    ensures Pow10(20) == 100_000_000_000_000_000_000
  {
    SmallPowers();
    assert Pow10(12) == 100 * Pow10(10) && Pow10(14) == 100 * Pow10(12) && Pow10(16) == 100 * Pow10(14);
    assert Pow10(18) == 100 * Pow10(16) && Pow10(20) == 100 * Pow10(18);
  }

  /** The first digit of the fraction at which the digits fall into the interval. */
  ghost predicate FirstHit(M: nat, delta: nat, one: nat, n: nat)
    requires one > 0
  {
    n > 0 && Hit(M, delta, one, n) && forall i | 0 < i < n :: !Hit(M, delta, one, i)
  }

  /** The second loop: digits of the fraction. It ends at the first one at which they fall into the interval, and then
      indexes the table of powers with how many there were: past its end from the tenth on, where nothing is known of
      what is read and the last digit is left as it is. */
  method FractionDigits(M: uint64, w: uint64, one: uint64, delta0: uint64, rest: uint64, buffer: array<byte>, start: nat,
      len0: nat, ghost D0: nat)
    returns (len: nat, kappa: int, past: bool, ghost D: nat)
    requires w <= M && M - w <= delta0 < M && delta0 > 0 && start + 21 <= buffer.Length && len0 <= 10
    requires one <= 0x1000_0000_0000_0000 && D0 * one + rest == M && delta0 < rest < one
    requires Spells(buffer[start..start + len0], D0)
    modifies buffer
    ensures 0 < len <= 21 && kappa < 0 && buffer[..start] == old(buffer[..start]) && len <= len0 - kappa
    ensures FirstHit(M, delta0, one, -kappa) && (past <==> -kappa >= |POWERS_OF_10|)
    ensures Spells(buffer[start..start + len], D)
    ensures !past ==> Best(M, w, delta0, one, kappa, D)
  {
    hide Best, Spells, Pow10, InFraction, Fallen, Beyond, Hit;
    var p2: uint64, delta: uint64 := rest, delta0;
    len, kappa, D := len0, 0, D0;
    FractionStarts(M, one, delta, p2, D);
    while true
      invariant kappa <= 0 && len <= len0 - kappa && len <= 21
      invariant InFraction(M, one, delta0, p2, delta, D, -kappa) && 0 < delta <= p2 < one
      invariant forall i | 0 < i <= -kappa :: !Hit(M, delta0, one, i)
      invariant Spells(buffer[start..start + len], D) && buffer[..start] == old(buffer[..start])
      decreases one - delta
    {
      ghost var d', q := p2 * 10 / one, p2 * 10 % one;
      FewSoFar(M, one, delta0, p2, delta, D, -kappa, buffer[start..start + len]);
      FractionGoesOn(M, one, delta0, p2, delta, D, -kappa, d', q);
      if q < delta * 10 {
        FractionStops(M, w, one, delta0, p2, delta, D, -kappa, d', q);
      }
      p2 := p2 * 10;
      delta := delta * 10;
      var d: nat := p2 / one;
      len := AppendDigit(buffer, start, len, d, D);
      p2 := p2 % one;
      kappa, D := kappa - 1, 10 * D + d;
      if p2 < delta {
        past := -kappa >= |POWERS_OF_10|;
        if !past {
          TableIsPow10(-kappa);
          var scaled: uint64 := (M - w) * POWERS_OF_10[-kappa];
          D := Round(buffer, start, len, delta, p2, one, scaled, M, w, delta0, one, kappa, D);
        }
        return;
      }
    }
  }

  /** How DigitGen comes to an end: with the last digit rounded, with an index past the table of powers, or not at all. */
  datatype Ending = Rounded | PastTable(index: nat) | Endless

  /** Digits of the number in the interval closest to w, and its decimal exponent in K, exactly if the table of powers
      is long enough. Otherwise it is indexed with the number of digits of the fraction, or, for an empty interval, the
      second loop has no end. */
  method DigitGen(W: DiyFp, Mp: DiyFp, delta: uint64, buffer: array<byte>, start: nat, K: int)
    returns (len: nat, K': int, ending: Ending, ghost D: nat)
    requires -60 <= Mp.e <= -32 && W.f <= Mp.f && Mp.f - W.f <= delta < Mp.f && start + 21 <= buffer.Length
    modifies buffer
    ensures buffer[..start] == old(buffer[..start]) && len <= 21
    ensures ending.Rounded? <==> InTable(Mp.f, delta, Pow2(-Mp.e))
    ensures ending.Rounded? ==> 0 < len <= 19 && Spells(buffer[start..start + len], D)
    ensures ending.Rounded? ==> Best(Mp.f, W.f, delta, Pow2(-Mp.e), K' - K, D)
    ensures ending.Rounded? ==> Shortest(Mp.f, delta, Pow2(-Mp.e), K' - K)
    ensures ending.PastTable? ==>
              ending.index >= |POWERS_OF_10| && FirstHit(Mp.f, delta, Pow2(-Mp.e), ending.index)
    ensures ending.Endless? ==> delta == 0 && NoHit(Mp.f, delta, Pow2(-Mp.e))
  {
    hide Best, Hit, Spells, Pow2, FirstHit, Shortest;
    Pow2Between(-Mp.e);
    var one: uint64 := Pow2(-Mp.e);
    var done, kappa, p2;
    done, len, kappa, p2, D := IntegerDigits(Mp.f, W.f, one, delta, buffer, start);
    ending := Rounded;
    if !done {
      if delta == 0 {
        NeverHits(Mp.f, one);
        ending := Endless;
      } else {
        var past;
        len, kappa, past, D := FractionDigits(Mp.f, W.f, one, delta, p2, buffer, start, len, D);
        FirstHitIs(Mp.f, delta, one, -kappa);
        HitIsNeeded(Mp.f, delta, one, -kappa);
        if past {
          ending := PastTable(-kappa);
        }
      }
    }
    K' := K + kappa;
  }

  ghost predicate NoHit(M: nat, delta: nat, one: nat)
    requires one > 0
  {
    forall n: nat :: !Hit(M, delta, one, n)
  }

  lemma NeverHits(M: nat, one: nat)
    requires one > 0
    ensures NoHit(M, 0, one)
  {
  }

  /** Where the digits fall into the interval for the first time, no number with fewer lies in it. */
  lemma HitIsNeeded(M: nat, delta: nat, one: nat, n: nat)
    requires one > 0 && FirstHit(M, delta, one, n) && M % one > delta
    ensures Shortest(M, delta, one, -(n as int))
  {
    hide NoneInside, Shortest, Hit;
    assert n > 1 ==> !Hit(M, delta, one, n - 1);
    NoneAt(M, delta, one, n - 1, 1 - n);
    IsShortest(M, delta, one, -(n as int));
  }

  lemma NoneAt(M: nat, delta: nat, one: nat, n: nat, kappa: int)
    requires one > 0 && kappa == -(n as int) && if n == 0 then M % one > delta else !Hit(M, delta, one, n)
    ensures NoneInside(M, delta, one, kappa)
  {
    hide Inside, Hit;
    forall D: nat ensures !Inside(M, delta, one, kappa, D) {
      NotInside(M, delta, one, n, kappa, D);
    }
  }

  lemma NotInside(M: nat, delta: nat, one: nat, n: nat, kappa: int, D: nat)
    requires one > 0 && kappa == -(n as int) && if n == 0 then M % one > delta else !Hit(M, delta, one, n)
    ensures !Inside(M, delta, one, kappa, D)
  {
    NoMultiple(M * Pow10(n), one, delta * Pow10(n), D);
    Apart(M, delta, Pow10(n));
  }

  lemma Apart(M: nat, delta: nat, p: nat)
    ensures (M - delta) * p == M * p - delta * p
  {
  }

  lemma NoMultiple(x: nat, one: nat, d: nat, D: nat)
    requires one > 0 && d <= x % one
    ensures !(x - d < D * one <= x)
  {
    Division(x, one);
    if D <= x / one {
      MulUp(D, one, x / one, one);
    } else {
      MulUp(x / one + 1, one, D, one);
    }
  }

  lemma FirstHitIs(M: nat, delta: nat, one: nat, n: nat)
    requires one > 0 && FirstHit(M, delta, one, n) && M % one > delta
    ensures n < |POWERS_OF_10| <==> InTable(M, delta, one)
  {
    hide Hit;
  }

  // ---------------------------------------------------------------- when the table is long enough

  lemma {:induction false} HitStays(M: nat, delta: nat, one: nat, n: nat, m: nat)
    requires one > 0 && n <= m && Hit(M, delta, one, n)
    ensures Hit(M, delta, one, m)
    decreases m
  {
    if n < m {
      HitStays(M, delta, one, n, m - 1);
      HitAgain(M, delta, one, Pow10(m - 1));
    }
  }

  lemma HitAgain(M: nat, delta: nat, one: nat, p: nat)
    requires one > 0 && M * p % one < delta * p
    ensures M * (10 * p) % one < delta * (10 * p)
  {
    assert M * (10 * p) == 10 * (M * p) && delta * (10 * p) == 10 * (delta * p);
    TenTimes(M * p, one);
  }

  lemma TenTimes(x: nat, one: nat)
    requires one > 0
    ensures 10 * x % one <= 10 * (x % one)
  {
    var D, r := x / one, x % one;
    Division(x, one);
    Division(10 * r, one);
    var d, q := 10 * r / one, 10 * r % one;
    assert (10 * D + d) * one == 10 * (D * one) + d * one;
    Remainder(10 * x, one, 10 * D + d, q);
    assert d * one >= 0;
  }

  const TEN_9: nat := 1000000000

  /** Only the ninth digit of the fraction matters: the digits stay in the interval once they are in it. */
  lemma InTableIs(M: nat, delta: nat, one: nat)
    requires one > 0
    ensures InTable(M, delta, one) <==> M % one == delta || M * TEN_9 % one < delta * TEN_9
  {
    hide Hit, Pow10;
    HitsAre(M, delta, one);
    if M % one < delta {
      HitStays(M, delta, one, 0, 9);
    }
    forall n: nat | 0 < n < |POWERS_OF_10| && Hit(M, delta, one, n) ensures Hit(M, delta, one, 9) {
      HitStays(M, delta, one, n, 9);
    }
  }

  lemma HitsAre(M: nat, delta: nat, one: nat)
    requires one > 0
    ensures Hit(M, delta, one, 0) <==> M % one < delta
    ensures Hit(M, delta, one, 9) <==> M * TEN_9 % one < delta * TEN_9
  {
    SmallPowers();
  }

  lemma {:induction false} Pow2Plus(a: nat, b: nat)
    ensures Pow2(a + b) == Pow2(a) * Pow2(b)
  {
    if a == 0 {
      Regrouped(1, 1, Pow2(b));
    } else {
      Pow2Plus(a - 1, b);
      Regrouped(2, Pow2(a - 1), Pow2(b));
    }
  }

  lemma Regrouped(n: nat, x: nat, y: nat)
    ensures n * (x * y) == n * x * y && 1 * y == y
  {
  }

  const FIVE_9: nat := 1953125           // 10^9 = 512 * 5^9
  const TWO_51: nat := 0x8_0000_0000_0000
  const SPREAD: nat := 54691137414035    // 5^9 times this is -1 modulo 2^51
  const QUOTIENT: nat := 47437

  lemma Pow2s()
    ensures Pow2(9) == 512 && Pow2(51) == TWO_51 && Pow2(63) == TWO_63
  {
    Pow2Ends();
    assert Pow2(9) == 512 by { assert Pow2(5) == 32; Pow2Four(5); }
    Pow2Plus(51, 9);
    Pow2Plus(3, 60);
    assert Pow2(3) == 8;
  }

  /** A fraction whose digits come closest to one from below at the ninth: 10^9 times it is one - 512, modulo one. */
  lemma Closest(k: nat) returns (r: nat, u: nat)
    requires 9 <= k <= 60
    ensures r < Pow2(k - 9) && Pow2(k) == 512 * Pow2(k - 9) && u > 0
    ensures r * TEN_9 + 512 == u * Pow2(k)
  {
    hide Pow2;
    Pow2s();
    Pow2Plus(9, k - 9);
    Pow2Plus(k - 9, 60 - k);
    var m, v := Pow2(k - 9), Pow2(60 - k);
    var q: int;
    r, q := SPREAD % m, SPREAD / m;
    Division(SPREAD, m);
    var w: int := QUOTIENT * v - FIVE_9 * q;
    Spreads(m, v, q, r, w);
    u := w;
    assert 512 * (w * m) == w * (512 * m);
  }

  lemma Spreads(m: nat, v: nat, q: int, r: nat, w: int)
    requires m > 0 && TWO_51 == m * v && SPREAD == q * m + r && w == QUOTIENT * v - FIVE_9 * q
    ensures w > 0 && FIVE_9 * r + 1 == w * m
  {
    assert FIVE_9 * SPREAD + 1 == QUOTIENT * TWO_51;
    assert w * m == QUOTIENT * (m * v) - FIVE_9 * (q * m);
    Positive(w, m);
  }

  lemma Positive(w: int, m: nat)
    requires w * m > 0
    ensures w > 0
  {
  }

  /** M is a normalised number with the fraction r, which 10^9 times leaves one - 512. */
  lemma MissesNinth(k: nat, delta: nat, r: nat, u: nat) returns (M: nat)
    requires 32 <= k <= 60 && r < Pow2(k) && r * TEN_9 + 512 == u * Pow2(k) && u > 0
    requires r != delta && delta * TEN_9 <= Pow2(k) - 512
    ensures TWO_63 <= M < TWO_64 && delta < M && !InTable(M, delta, Pow2(k))
  {
    hide Pow2, InTable;
    Pow2s();
    Pow2Between(k);
    Pow2Plus(63 - k, k);
    var one, h := Pow2(k), Pow2(63 - k);
    M := TWO_63 + r;
    Remainder(M, one, h, r);
    assert M * TEN_9 == (h * TEN_9 + u - 1) * one + (one - 512);
    Remainder(M * TEN_9, one, h * TEN_9 + u - 1, one - 512);
    InTableIs(M, delta, one);
  }

  /** Ten to the ninth times anything leaves a multiple of 512. */
  lemma AtMost(x: nat, one: nat, m: nat)
    requires one == 512 * m && m > 0
    ensures x * TEN_9 % one <= one - 512
  {
    var q, r := x * TEN_9 / one, x * TEN_9 % one;
    Division(x * TEN_9, one);
    assert q * one == 512 * (q * m);
    assert r == 512 * (FIVE_9 * x - q * m);
  }

  /** The table is long enough for every normalised number exactly if delta * 10^9 reaches the last multiple of 512
      below one. */
  lemma LongEnough(k: nat, delta: nat)
    requires 32 <= k <= 60
    ensures (forall M: nat | TWO_63 <= M < TWO_64 && delta < M :: InTable(M, delta, Pow2(k)))
            <==> delta * TEN_9 > Pow2(k) - 512
  {
    hide Pow2, InTable;
    var r, u := Closest(k);
    var one, m := Pow2(k), Pow2(k - 9);
    if delta * TEN_9 > one - 512 {
      forall M: nat | TWO_63 <= M < TWO_64 ensures InTable(M, delta, one) {
        AtMost(M, one, m);
        InTableIs(M, delta, one);
      }
    } else if r != delta {
      var M := MissesNinth(k, delta, r, u);
    } else {
      assert (r + m) * TEN_9 + 512 == (u + FIVE_9) * one;
      var M := MissesNinth(k, delta, r + m, u + FIVE_9);
    }
  }

  /** One number that runs past the table for every delta that leaves it room to: just below 9. */
  lemma NarrowRunsPastTheTable(k: nat, delta: nat)
    requires 32 <= k <= 60
    ensures 9 * Pow2(k) - 1 < TWO_64
    ensures !InTable(9 * Pow2(k) - 1, delta, Pow2(k)) <==> (delta + 1) * TEN_9 <= Pow2(k)
  {
    hide Pow2, InTable;
    Pow2Between(k);
    var one := Pow2(k);
    var M := 9 * one - 1;
    Remainder(M, one, 8, one - 1);
    assert M * TEN_9 == (9 * TEN_9 - 1) * one + (one - TEN_9);
    Remainder(M * TEN_9, one, 9 * TEN_9 - 1, one - TEN_9);
    InTableIs(M, delta, one);
  }
}
