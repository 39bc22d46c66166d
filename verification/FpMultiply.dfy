/** `multiply` (fpconv_dtoa.c:137-152): the high word of a 64 x 64 bit product from four 32-bit halves. */
module FpMultiply {
  import opened FpBase

  /** The reference: the exact product divided by 2^64, rounded half up. */
  function RoundedProduct(a: int, b: int): int {
    (a * b + TWO63) / TWO64
  }

  function Multiply(a: Fp, b: Fp): (r: Fp)
    ensures r.frac == RoundedProduct(a.frac, b.frac)
    ensures r.exp == a.exp + b.exp + 64
  {
    var ahi, alo := a.frac / TWO32, a.frac % TWO32;
    var bhi, blo := b.frac / TWO32, b.frac % TWO32;
    HalfProductFits(ahi, blo);
    HalfProductFits(alo, bhi);
    HalfProductFits(alo, blo);
    HalfProductFits(ahi, bhi);
    var ahbl: u64 := ahi * blo;
    var albh: u64 := alo * bhi;
    var albl: u64 := alo * blo;
    var ahbh: u64 := ahi * bhi;
    var tmp: u64 := ahbl % TWO32 + albh % TWO32 + albl / TWO32;
    var tmp': u64 := tmp + 0x8000_0000;
    HalvesRecombine(a.frac, b.frac, ahi, alo, bhi, blo);
    HighWordFits(a.frac, b.frac);
    var high: u64 := ahbh + ahbl / TWO32 + albh / TWO32 + tmp' / TWO32;
    Fp(high, a.exp + b.exp + 64)
  }

  lemma HalfProductFits(x: int, y: int)
    requires 0 <= x < TWO32 && 0 <= y < TWO32
    ensures 0 <= x * y <= (TWO32 - 1) * (TWO32 - 1)
  {
    MulMonotone(x, TWO32 - 1, y, TWO32 - 1);
  }

  lemma HighWordFits(a: u64, b: u64)
    ensures 0 <= RoundedProduct(a, b) < TWO64
  {
    MulMonotone(a, TWO64 - 1, b, TWO64 - 1);
  }

  lemma HalvesRecombine(a: int, b: int, ahi: int, alo: int, bhi: int, blo: int)
    requires a == ahi * TWO32 + alo && b == bhi * TWO32 + blo
    ensures RoundedProduct(a, b) ==
            ahi * bhi + (ahi * blo) / TWO32 + (alo * bhi) / TWO32
            + ((ahi * blo) % TWO32 + (alo * bhi) % TWO32 + (alo * blo) / TWO32 + 0x8000_0000) / TWO32
  {
    var hl, lh, ll := ahi * blo, alo * bhi, alo * blo;
    assert a * b == ahi * bhi * TWO64 + (hl + lh) * TWO32 + ll by {
      assert a * b == (ahi * TWO32) * (bhi * TWO32) + (ahi * TWO32) * blo + alo * (bhi * TWO32) + ll;
      assert (ahi * TWO32) * (bhi * TWO32) == ahi * bhi * TWO64;
    }
  }

  /** Rounding keeps order, and a gap of at least g survives as at least g * b / 2^64 - 1. */
  lemma ProductGap(x: u64, y: u64, b: u64, g: int)
    requires x + g <= y && 0 <= g
    ensures RoundedProduct(y, b) * TWO64 >= RoundedProduct(x, b) * TWO64 + g * b - (TWO64 - 1)
  {
    assert y * b >= x * b + g * b by {
      assert (y - x - g) * b >= 0;
      assert y * b == x * b + g * b + (y - x - g) * b;
    }
  }
}
