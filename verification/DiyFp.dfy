/** The extended-precision product of Grisu2, once with a 128-bit product and once with 32-bit halves (internal/dtoa.h). */
module DiyFps {
  import opened Events

  const TWO_31: int := 0x8000_0000
  const TWO_32: int := 0x1_0000_0000
  const TWO_63: int := 0x8000_0000_0000_0000
  const TWO_64: int := 0x1_0000_0000_0000_0000

  datatype DiyFp = DiyFp(f: uint64, e: int)

  lemma MulUp(x: nat, y: nat, m: nat, n: nat)
    requires x <= m && y <= n
    ensures 0 <= x * y <= m * n
  {
    assert m * n - x * y == (m - x) * n + x * (n - y);
    assert (m - x) * n >= 0 && x * (n - y) >= 0 && x * y >= 0;
  }

  const MAX_PRODUCT: int := 0xFFFF_FFFF_FFFF_FFFE_0000_0000_0000_0001

  /** The exact product. */
  function Product(f: uint64, g: uint64): (p: int)
    ensures 0 <= p <= MAX_PRODUCT
  {
    MulUp(f, g, TWO_64 - 1, TWO_64 - 1);
    f * g
  }

  /** The product in units of 2^64, rounded to the nearest, halves upwards. */
  function Rounded(f: uint64, g: uint64): int {
    (Product(f, g) + TWO_63) / TWO_64
  }

  /** The upper half of a 128-bit product, one more if the top bit of the lower half is set. */
  function UpperHalf(p: int): (h: uint64)
    requires 0 <= p <= MAX_PRODUCT
    ensures h == (p + TWO_63) / TWO_64
  {
    var h, l := p / TWO_64, p % TWO_64;
    if l >= TWO_63 then h + 1 else h
  }

  /** operator* where the compiler has a 128-bit product. */
  function MulWide(x: DiyFp, y: DiyFp): (r: DiyFp)
    ensures r == DiyFp(Rounded(x.f, y.f), x.e + y.e + 64)
  {
    DiyFp(UpperHalf(Product(x.f, y.f)), x.e + y.e + 64)
  }

  /** operator* from four 32-bit by 32-bit products; the types say that no 64-bit step overflows. */
  function MulHalves(x: DiyFp, y: DiyFp): (r: DiyFp)
    ensures r == MulWide(x, y)
  {
    HalvesRound(x.f, y.f);
    var a: uint32, b: uint32 := x.f / TWO_32, x.f % TWO_32;
    var c: uint32, d: uint32 := y.f / TWO_32, y.f % TWO_32;
    var ac: uint64, bc: uint64, ad: uint64, bd: uint64 := a * c, b * c, a * d, b * d;
    var tmp: uint64 := bd / TWO_32 + ad % TWO_32 + bc % TWO_32 + TWO_31;
    DiyFp(ac + ad / TWO_32 + bc / TWO_32 + tmp / TWO_32, x.e + y.e + 64)
  }

  /** The halves, their products and their sum with the carry, against the whole product. */
  lemma HalvesRound(f: uint64, g: uint64)
    ensures var a, b, c, d := f / TWO_32, f % TWO_32, g / TWO_32, g % TWO_32;
            && 0 <= a * c < TWO_64 && 0 <= a * d < TWO_64 && 0 <= b * c < TWO_64 && 0 <= b * d < TWO_64
            && a * c + a * d / TWO_32 + b * c / TWO_32 + (b * d / TWO_32 + a * d % TWO_32 + b * c % TWO_32 + TWO_31) / TWO_32
               == Rounded(f, g) < TWO_64
  {
    var a, b, c, d := f / TWO_32, f % TWO_32, g / TWO_32, g % TWO_32;
    MulUp(a, c, TWO_32 - 1, TWO_32 - 1);
    MulUp(a, d, TWO_32 - 1, TWO_32 - 1);
    MulUp(b, c, TWO_32 - 1, TWO_32 - 1);
    MulUp(b, d, TWO_32 - 1, TWO_32 - 1);
    Expand(a, b, c, d);
    Carry(a * c, a * d, b * c, b * d);
    var _ := UpperHalf(Product(f, g));
  }

  lemma Expand(a: int, b: int, c: int, d: int)
    ensures (a * TWO_32 + b) * (c * TWO_32 + d) == a * c * TWO_64 + (a * d + b * c) * TWO_32 + b * d
  {
    var k := TWO_32;
    assert (a * k + b) * (c * k + d) == (a * k) * (c * k) + (a * k) * d + b * (c * k) + b * d;
    assert (a * k) * (c * k) == a * c * (k * k);
    assert (a * k) * d == a * d * k && b * (c * k) == b * c * k;
  }

  lemma Carry(ac: int, ad: int, bc: int, bd: int)
    requires ac >= 0 && ad >= 0 && bc >= 0 && bd >= 0
    ensures ac + ad / TWO_32 + bc / TWO_32 + (bd / TWO_32 + ad % TWO_32 + bc % TWO_32 + TWO_31) / TWO_32
            == (ac * TWO_64 + (ad + bc) * TWO_32 + bd + TWO_63) / TWO_64
  {
    var tmp := bd / TWO_32 + ad % TWO_32 + bc % TWO_32 + TWO_31;
    var q := ac + ad / TWO_32 + bc / TWO_32 + tmp / TWO_32;
    var low := tmp % TWO_32 * TWO_32 + bd % TWO_32;
    assert ac * TWO_64 + (ad + bc) * TWO_32 + bd + TWO_63 == q * TWO_64 + low;
    assert 0 <= low < TWO_64;
  }

  /** The product is within half a unit of the exact one. */
  lemma ProductIsNearest(x: DiyFp, y: DiyFp)
    ensures var error := MulHalves(x, y).f * TWO_64 - x.f * y.f; -TWO_63 < error <= TWO_63
  {
    RoundedIsNearest(Product(x.f, y.f));
  }

  lemma RoundedIsNearest(p: int)
    ensures var error := (p + TWO_63) / TWO_64 * TWO_64 - p; -TWO_63 < error <= TWO_63
  {
  }
}
