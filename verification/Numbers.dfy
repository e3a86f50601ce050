/** Decimal text of integers and its readers' accumulators. */
module Numbers {
  import opened Streams

  predicate AllDigits(ds: bytes) {
    forall i | 0 <= i < |ds| :: IsDigit(ds[i])
  }

  /** The number that a run of digits appended to `n` spells. */
  function ValueFrom(n: nat, ds: bytes): nat
    requires AllDigits(ds)
    decreases |ds|
  {
    if ds == [] then n else ValueFrom(n * 10 + (ds[0] - ZERO), ds[1..])
  }

  /** Decimal digits without a leading zero; no digits at all for zero. */
  function DigitsOf(n: nat): (ds: bytes)
    ensures AllDigits(ds)
    ensures n > 0 ==> |ds| > 0 && ds[0] != ZERO
  {
    if n == 0 then [] else DigitsOf(n / 10) + [(ZERO + n % 10) as byte]
  }

  /** The canonical decimal text of a number. */
  function Decimal(n: nat): (ds: bytes)
    ensures AllDigits(ds) && |ds| > 0
    ensures n > 0 ==> ds[0] != ZERO
  {
    if n == 0 then [ZERO] else DigitsOf(n)
  }

  function DecimalInt(n: int): bytes {
    if n < 0 then [MINUS] + Decimal(-n) else Decimal(n)
  }

  lemma {:induction false} ValueOfAppend(n: nat, ds: bytes, d: byte)
    requires AllDigits(ds) && IsDigit(d)
    ensures ValueFrom(n, ds + [d]) == ValueFrom(n, ds) * 10 + (d - ZERO)
    decreases |ds|
  {
    if ds == [] {
      assert (ds + [d])[1..] == [];
    } else {
      assert (ds + [d])[1..] == ds[1..] + [d];
      ValueOfAppend(n * 10 + (ds[0] - ZERO), ds[1..], d);
    }
  }

  lemma {:induction false} ValueOfDigits(n: nat)
    ensures ValueFrom(0, DigitsOf(n)) == n
  {
    if n > 0 {
      ValueOfDigits(n / 10);
      ValueOfAppend(0, DigitsOf(n / 10), ZERO + n % 10);
    }
  }

  lemma ValueOfDecimal(n: nat)
    ensures ValueFrom(0, Decimal(n)) == n
  {
    ValueOfDigits(n);
  }

  /** Reading only ever makes the number larger. */
  lemma {:induction false} ValueGrows(n: nat, ds: bytes)
    requires AllDigits(ds)
    ensures ValueFrom(n, ds) >= n
    decreases |ds|
  {
    if ds != [] {
      ValueGrows(n * 10 + (ds[0] - ZERO), ds[1..]);
    }
  }
}
