/** grisu2 (fpconv_dtoa.c:226-247): from the bits of a double to its decimal digits, and back. */
module FpGrisu {
  import opened FpBase
  import opened FpMultiply
  import opened FpDigits
  import opened FpPowers
  import opened FpReal
  import opened FpDouble

  /** The number a significand and exponent stand for. */
  ghost function ValueOf(frac: int, exp: int): real { Times(frac as real, P2(exp)) }

  ghost function Decimal(d: int, k: int): real { Times(d as real, P10(k)) }

  /** Halfway to the next double up. */
  ghost function UpperMid(fp: Fp): real { ValueOf(2 * fp.frac + 1, fp.exp - 1) }

  /** Halfway to the next double down; below a power of two the doubles are twice as dense. */
  ghost function LowerMid(fp: Fp): real {
    if fp.frac == HIDDEN then ValueOf(4 * fp.frac - 1, fp.exp - 2) else ValueOf(2 * fp.frac - 1, fp.exp - 1)
  }

  // ---- the scaled interval ------------------------------------------------------------------

  /** After scaling by a cached power the interval is still wide around w, and wide enough that
      17 digits always reach it. */
  lemma ScaledInterval(f: int, c: u64)
    requires 0 < f < SPAN && c >= TWO63
    ensures 0 < LowerFrac(f) < TWO64
    ensures var l, w, u := RoundedProduct(LowerFrac(f), c), RoundedProduct(2 * f * Half(f), c),
                           RoundedProduct((2 * f + 1) * Half(f), c);
            && 0 <= l && l + 1 < w < u - 1
            && 10000000000000000 * (u - l - 2) >= u - 1
  {
    hide Half, LowerFrac, RoundedProduct;
    var p := Half(f);
    var lo, mid, hi := LowerFrac(f), 2 * f * p, (2 * f + 1) * p;
    IntervalGaps(f);
    ProductGap(lo, mid, c, 512);
    ProductGap(mid, hi, c, 1024);
    ProductGap(lo, hi, c, hi - lo);
    ProductNonNegative(lo, c);
    ProductUpperBound(hi, c);
    WideEnough(hi, hi - lo, c);
  }

  lemma IntervalGaps(f: int)
    requires 0 < f < SPAN
    ensures var p := Half(f);
            var lo, mid, hi := LowerFrac(f), 2 * f * p, (2 * f + 1) * p;
            && 0 < lo && lo + 512 <= mid && mid + 1024 <= hi < TWO64
            && (hi - lo >= 2048 || (hi - lo >= 1536 && hi <= TWO63 + 1024))
  {
    var p := Half(f);
    Distribute(2 * f, 1, p);
    if f != HIDDEN {
      ScaleOrder(1, 2 * f - 1, p);
    }
  }

  lemma ProductNonNegative(a: int, b: int)
    requires a >= 0 && b >= 0
    ensures RoundedProduct(a, b) >= 0
  {
    MulMonotone(0, a, 0, b);
  }

  lemma ProductUpperBound(a: int, b: int)
    ensures RoundedProduct(a, b) * TWO64 <= a * b + TWO63
    ensures RoundedProduct(a, b) * TWO64 > a * b + TWO63 - TWO64
  {
    var x := a * b + TWO63;
    assert x == TWO64 * (x / TWO64) + x % TWO64;
  }

  lemma WideEnough(hi: int, gap: int, c: int)
    requires c >= TWO63
    requires hi < TWO64 && (gap >= 2048 || (gap >= 1536 && hi <= TWO63 + 1024))
    ensures 10000000000000000 * (gap * c - 3 * TWO64) >= hi * c
  {
    var x := 10000000000000000 * gap - hi;
    assert x >= 1000000000000000000;
    MulMonotone(1000000000000000000, x, TWO63, c);
    assert x * c == 10000000000000000 * (gap * c) - hi * c;
  }

  /** 10^(n-2) times the width stays below the upper bound, so n is at most 17. */
  lemma AtMost17(n: nat, width: int, upper: int)
    requires n >= 2 ==> Pow10(n - 2) * width < upper
    requires width > 0 && 10000000000000000 * width >= upper
    ensures n <= 17
  {
    if n >= 18 {
      Pow10Monotone(16, n - 2);
      TensIsPow10(3);
      ScaleOrder(10000000000000000, Pow10(n - 2), width);
      assert false;
    }
  }

  // ---- the interval stays inside the true halfway points ---------------------------------------

  /** One unit makes up for the rounding of the product and of the cached power. */
  lemma OneUnitCovers(x: u64, c: u64, t: real)
    requires AbsR(t - c as real) <= 0.5
    ensures (RoundedProduct(x, c) - 1) as real * 18446744073709551616.0 < Times(x as real, t)
    ensures (RoundedProduct(x, c) + 1) as real * 18446744073709551616.0 > Times(x as real, t)
  {
    ProductUpperBound(x, c);
    var r, xc := RoundedProduct(x, c), x * c;
    ErrorOfProduct(x as real, c as real, t);
    assert xc as real == x as real * c as real;
    assert r * 18446744073709551616 <= xc + 9223372036854775808;
    assert r * 18446744073709551616 > xc - 9223372036854775808;
  }

  lemma ErrorOfProduct(x: real, c: real, t: real)
    requires x >= 0.0 && AbsR(t - c) <= 0.5
    ensures x * c - 0.5 * x <= Times(x, t) <= x * c + 0.5 * x
  {
    var d := t - c;
    assert x * t == x * c + x * d;
    ProductSign(x, 0.5 - d);
    ProductSign(x, 0.5 + d);
  }

  lemma ProductSign(x: real, y: real)
    requires x >= 0.0 && y >= 0.0
    ensures x * y >= 0.0
  {
  }

  /** u * 2^ue * 10^k, computed through the exact significand t of 10^k. */
  lemma ThroughTen(u: int, ue: int, ce: int, k: int, t: real, z: real)
    requires IsTen(t, ce, k) && z == P2(ue + ce)
    ensures Times(Times(u as real, t), z) == Times(ValueOf(u, ue), P10(k))
  {
    hide P2, P10;
    P2Product(ue, ce, z, P2(ue), P2(ce));
    Rearrange(u as real, t, P2(ue), P2(ce), z, P10(k));
  }

  lemma Rearrange(u: real, t: real, a: real, b: real, z: real, p: real)
    requires z == a * b && Times(t, b) == p
    ensures Times(Times(u, t), z) == Times(Times(u, a), p)
  {
    assert (u * t) * (a * b) == (u * a) * (t * b);
  }

  lemma Exponent64(e: int, z: real, q: real)
    requires z == P2(e) && q == P2(e + 64)
    ensures q == z * 18446744073709551616.0
  {
    P2Product(e, 64, q, z, P2(64));
    P2Nat(64);
    Pow2Literals();
  }

  /** Comparing a scaled bound with the true one. */
  lemma BelowTrue(bound: int, u: int, ue: int, ce: int, k: int, t: real, exp: int)
    requires IsTen(t, ce, k) && exp == ue + ce + 64
    ensures bound as real * 18446744073709551616.0 < Times(u as real, t) ==>
              ValueOf(bound, exp) < Times(ValueOf(u, ue), P10(k))
    ensures bound as real * 18446744073709551616.0 > Times(u as real, t) ==>
              ValueOf(bound, exp) > Times(ValueOf(u, ue), P10(k))
  {
    hide P2, P10, IsTen;
    var z, q := P2(ue + ce), P2(exp);
    ThroughTen(u, ue, ce, k, t, z);
    Exponent64(ue + ce, z, q);
    ScaleReal(bound as real, Times(u as real, t), z, q);
  }

  lemma ScaleReal(x: real, y: real, z: real, q: real)
    requires z > 0.0 && q == z * 18446744073709551616.0
    ensures x * 18446744073709551616.0 < y ==> Times(x, q) < Times(y, z)
    ensures x * 18446744073709551616.0 > y ==> Times(x, q) > Times(y, z)
  {
    var s := x * 18446744073709551616.0;
    assert Times(x, q) == s * z;
    CompareScaled(s, y, z);
    CompareScaled(y, s, z);
  }

  lemma CompareScaled(x: real, y: real, z: real)
    requires z > 0.0
    ensures x < y <==> x * z < y * z
    ensures x <= y <==> x * z <= y * z
  {
  }

  /** On the real line the digit grid is D * 10^kappa against bound * 2^exp. */
  lemma GridToReal(D: int, kappa: int, bound: int, exp: int, one: int)
    requires exp < 0 && one == Pow2(-exp)
    ensures Mul(D, UnitOf(one, kappa)) <= bound * ScaleOf(kappa) ==> Decimal(D, kappa) <= ValueOf(bound, exp)
    ensures Mul(D, UnitOf(one, kappa)) >= bound * ScaleOf(kappa) ==> Decimal(D, kappa) >= ValueOf(bound, exp)
  {
    var inv, p := P2(exp), P10(kappa);
    assert inv * one as real == 1.0 by {
      P2Nat(-exp);
      P2Product(exp, -exp, 1.0, inv, P2(-exp));
    }
    if kappa >= 0 {
      P10Nat(kappa);
      GridPositive(D, Pow10(kappa), bound, one, p, inv);
    } else {
      var s := Pow10(-kappa);
      assert p * s as real == 1.0 by {
        P10Nat(-kappa);
        P10Product(kappa, -kappa, 1.0, p, P10(-kappa));
      }
      GridNegative(D, s, bound, one, p, inv);
    }
  }

  lemma GridPositive(D: int, s: int, bound: int, one: int, p: real, inv: real)
    requires one > 0 && inv > 0.0 && inv * one as real == 1.0 && p == s as real
    ensures Mul(D, s * one) <= bound * 1 ==> Times(D as real, p) <= Times(bound as real, inv)
    ensures Mul(D, s * one) >= bound * 1 ==> Times(D as real, p) >= Times(bound as real, inv)
  {
    var x := D * s;
    assert D * (s * one) == x * one;
    assert x as real == D as real * p;
    Divide(x, bound, one, inv);
  }

  lemma Divide(x: int, bound: int, one: int, inv: real)
    requires one > 0 && inv > 0.0 && inv * one as real == 1.0
    ensures x * one <= bound ==> x as real <= bound as real * inv
    ensures x * one >= bound ==> x as real >= bound as real * inv
  {
    var y := x * one;
    assert y as real == x as real * one as real;
    assert y as real * inv == x as real * (one as real * inv);
    CompareScaled(y as real, bound as real, inv);
    CompareScaled(bound as real, y as real, inv);
  }

  lemma GridNegative(D: int, s: int, bound: int, one: int, p: real, inv: real)
    requires one > 0 && inv > 0.0 && inv * one as real == 1.0 && p > 0.0 && p * s as real == 1.0
    ensures Mul(D, one) <= bound * s ==> Times(D as real, p) <= Times(bound as real, inv)
    ensures Mul(D, one) >= bound * s ==> Times(D as real, p) >= Times(bound as real, inv)
  {
    var y := bound * s;
    Divide(D, y, one, inv);
    assert y as real == bound as real * s as real;
    var lim := y as real * inv;
    assert lim * p == bound as real * inv by {
      assert lim * p == bound as real * inv * (s as real * p);
    }
    CompareScaled(D as real, lim, p);
    CompareScaled(lim, D as real, p);
  }

  // ---- the whole conversion ------------------------------------------------------------------

  /** A decimal inside the scaled interval lies strictly between the halfway points. */
  lemma StrictlyInside(fp: Fp, lower: Fp, upper: Fp, cp: Fp, i: nat, digits: seq<int>, kappa: int, w: int)
    requires IsDouble(fp) && i < NPOWERS && cp == PowerTen(i)
    requires upper.frac == (2 * fp.frac + 1) * Half(fp.frac) && lower.frac == LowerFrac(fp.frac)
    requires upper.exp == lower.exp == fp.exp - Shift(fp.frac) - 11
    requires -60 <= upper.exp + cp.exp + 64 <= -32
    requires Generated(RoundedProduct(lower.frac, cp.frac) + 1, w, RoundedProduct(upper.frac, cp.frac) - 1,
                       Pow2(-(upper.exp + cp.exp + 64)), digits, kappa)
    ensures LowerMid(fp) < Decimal(Value(digits), kappa - DecimalExp(i)) < UpperMid(fp)
  {
    hide Half, LowerFrac, PowerTen, Pow2, P2, P10, RoundedProduct, Times, UnitOf, ScaleOf, IsTen;
    var exp, k, D := upper.exp + cp.exp + 64, DecimalExp(i), Value(digits);
    var lo, hi := RoundedProduct(lower.frac, cp.frac) + 1, RoundedProduct(upper.frac, cp.frac) - 1;
    var t := TableIsAccurate(i);
    OneUnitCovers(upper.frac, cp.frac, t);
    OneUnitCovers(lower.frac, cp.frac, t);
    BelowTrue(hi, upper.frac, upper.exp, cp.exp, k, t, exp);
    BelowTrue(lo, lower.frac, lower.exp, cp.exp, k, t, exp);
    GridToReal(D, kappa, hi, exp, Pow2(-exp));
    GridToReal(D, kappa, lo, exp, Pow2(-exp));
    BoundaryValues(fp, lower, upper);
    CancelPower(D, kappa, k, LowerMid(fp), UpperMid(fp));
  }

  lemma CancelPower(D: int, kappa: int, k: int, lo: real, hi: real)
    requires Times(lo, P10(k)) < Decimal(D, kappa) < Times(hi, P10(k))
    ensures lo < Decimal(D, kappa - k) < hi
  {
    hide P10, Times;
    var a, x, y := P10(k), P10(kappa - k), P10(kappa);
    P10Product(kappa - k, k, y, x, a);
    CancelReal(D as real, x, y, a, lo, hi);
  }

  lemma CancelReal(d: real, x: real, y: real, a: real, lo: real, hi: real)
    requires a > 0.0 && y == x * a && Times(lo, a) < Times(d, y) < Times(hi, a)
    ensures lo < Times(d, x) < hi
  {
    var X := d * x;
    assert d * y == X * a;
    CompareScaled(X, hi, a);
    CompareScaled(lo, X, a);
  }

  lemma BoundaryValues(fp: Fp, lower: Fp, upper: Fp)
    requires IsDouble(fp)
    requires upper.frac == (2 * fp.frac + 1) * Half(fp.frac) && lower.frac == LowerFrac(fp.frac)
    requires upper.exp == lower.exp == fp.exp - Shift(fp.frac) - 11
    ensures ValueOf(upper.frac, upper.exp) == UpperMid(fp)
    ensures ValueOf(lower.frac, lower.exp) == LowerMid(fp)
  {
    hide P2, Pow2, Shift, Times, Half;
    var f, h := fp.frac, Shift(fp.frac);
    var p := Half(f);
    HalfAsPower(f, h, fp.exp);
    FactorOut(2 * f + 1, p, P2(upper.exp), P2(fp.exp - 1));
    if f == HIDDEN {
      QuarterUnit(f, fp.exp);
    } else {
      FactorOut(2 * f - 1, p, P2(upper.exp), P2(fp.exp - 1));
    }
  }

  lemma FactorOut(n: int, p: int, q: real, r: real)
    requires Times(p as real, q) == r
    ensures Times((n * p) as real, q) == Times(n as real, r)
  {
    assert (n * p) as real == n as real * p as real;
    assert n as real * p as real * q == n as real * (p as real * q);
  }

  lemma HalfAsPower(f: int, h: nat, exp: int)
    requires 0 < f < SPAN && h == Shift(f)
    ensures Times(Half(f) as real, P2(exp - h - 11)) == P2(exp - 1)
  {
    hide P2, Pow2, Shift;
    var a, b := P2(h), P2(10);
    P2Nat(h);
    assert b == 1024.0 by { P2Nat(10); Pow2Ten(); }
    P2Product(h, 10, P2(h + 10), a, b);
    P2Product(exp - h - 11, h + 10, P2(exp - 1), P2(exp - h - 11), P2(h + 10));
  }

  lemma Pow2Ten()
    ensures Pow2(10) == 1024
  {
  }

  lemma QuarterUnit(f: int, exp: int)
    requires f == HIDDEN
    ensures Times((2 * f * Half(f) - 512) as real, P2(exp - Shift(f) - 11)) == Times((4 * f - 1) as real, P2(exp - 2))
  {
    var a, b := P2(exp - 11), P2(exp - 2);
    assert P2(9) == 512.0 by { P2Nat(9); }
    P2Product(exp - 11, 9, b, a, 512.0);
    assert Half(f) == 1024 && Shift(f) == 0;
    assert ((4 * f - 1) * 512) as real == (4 * f - 1) as real * 512.0;
  }

  // ---- no shorter decimal ----------------------------------------------------------------------

  /** Two units of the scaled upper bound at most: the rounding of the bounds and the unit they give up. */
  ghost function Slack(fp: Fp): real { UpperMid(fp) / 1152921504606846976.0 }

  /** Between the halfway points, and not within the slack of either. */
  ghost predicate Inside(fp: Fp, x: real, slack: real) { LowerMid(fp) + slack < x < UpperMid(fp) - slack }

  /** No multiple of 10^k is inside. */
  ghost predicate NoneInside(fp: Fp, k: int, slack: real) {
    forall q: int :: !Inside(fp, Decimal(q, k), slack)
  }

  /** A decimal with one digit less would have been found, had one been inside by more than the slack. */
  lemma NoneShorter(fp: Fp, lower: Fp, upper: Fp, cp: Fp, i: nat, digits: seq<int>, kappa: int, w: int, q: int)
    requires IsDouble(fp) && i < NPOWERS && cp == PowerTen(i) && cp.frac >= TWO63
    requires upper.frac == (2 * fp.frac + 1) * Half(fp.frac) && lower.frac == LowerFrac(fp.frac)
    requires upper.exp == lower.exp == fp.exp - Shift(fp.frac) - 11
    requires -60 <= upper.exp + cp.exp + 64 <= -32
    requires Generated(RoundedProduct(lower.frac, cp.frac) + 1, w, RoundedProduct(upper.frac, cp.frac) - 1,
                       Pow2(-(upper.exp + cp.exp + 64)), digits, kappa)
    ensures !Inside(fp, Decimal(q, kappa - DecimalExp(i) + 1), Slack(fp))
  {
    hide Half, LowerFrac, PowerTen, Pow2, P2, P10, RoundedProduct, Times, IsTen, Shift;
    var exp, k := upper.exp + cp.exp + 64, DecimalExp(i);
    var lo, hi := RoundedProduct(lower.frac, cp.frac) + 1, RoundedProduct(upper.frac, cp.frac) - 1;
    OffGrid(lo, w, hi, exp, digits, kappa, q);
    var t := TableIsAccurate(i);
    OneUnitCovers(upper.frac, cp.frac, t);
    OneUnitCovers(lower.frac, cp.frac, t);
    BelowTrue(hi, upper.frac, upper.exp, cp.exp, k, t, exp);
    BelowTrue(hi + 2, upper.frac, upper.exp, cp.exp, k, t, exp);
    BelowTrue(lo - 2, lower.frac, lower.exp, cp.exp, k, t, exp);
    BoundaryValues(fp, lower, upper);
    LargeBound(fp.frac, cp.frac);
    var x := Decimal(q, kappa - k + 1);
    TenfoldScaled(q, kappa, k);
    Margin(lo, hi, LowerMid(fp), UpperMid(fp), P10(k), P2(exp), x);
  }

  lemma OffGrid(lo: int, w: int, hi: int, exp: int, digits: seq<int>, kappa: int, q: int)
    requires exp < 0 && Generated(lo, w, hi, Pow2(-exp), digits, kappa)
    ensures Decimal(10 * q, kappa) <= ValueOf(lo, exp) || Decimal(10 * q, kappa) >= ValueOf(hi, exp)
  {
    hide Pow2, Decimal, ValueOf, UnitOf, ScaleOf;
    var unit := UnitOf(Pow2(-exp), kappa);
    assert Mul(10 * q, unit) == Mul(q, 10 * unit);
    GridToReal(10 * q, kappa, lo, exp, Pow2(-exp));
    GridToReal(10 * q, kappa, hi, exp, Pow2(-exp));
  }

  lemma TenfoldScaled(q: int, kappa: int, k: int)
    ensures Times(Decimal(q, kappa - k + 1), P10(k)) == Decimal(10 * q, kappa)
  {
    hide P10;
    var a, x, y := P10(k), P10(kappa - k + 1), P10(kappa);
    P10Step(kappa);
    P10Product(kappa - k + 1, k, P10(kappa + 1), x, a);
    assert (10 * q) as real == 10.0 * q as real;
    Regroup(q as real, x, a, y);
  }

  lemma Regroup(d: real, x: real, a: real, y: real)
    requires x * a == 10.0 * y
    ensures Times(Times(d, x), a) == Times(10.0 * d, y)
  {
    assert (d * x) * a == d * (x * a);
  }

  lemma LargeBound(f: int, c: u64)
    requires 0 < f < SPAN && c >= TWO63
    ensures RoundedProduct((2 * f + 1) * Half(f), c) - 1 >= 2305843009213693952
  {
    hide RoundedProduct;
    var hi := (2 * f + 1) * Half(f);
    Distribute(2 * f, 1, Half(f));
    MulMonotone(TWO63, hi, TWO63, c);
    ProductUpperBound(hi, c);
  }

  /** z is the unit of the scaled bounds, a the power of ten they were scaled by. */
  lemma Margin(lo: int, hi: int, lm: real, um: real, a: real, z: real, x: real)
    requires a > 0.0 && z > 0.0 && hi >= 2305843009213693952
    requires Times(hi as real, z) < Times(um, a) < Times((hi + 2) as real, z)
    requires Times((lo - 2) as real, z) < Times(lm, a)
    requires Times(x, a) <= Times(lo as real, z) || Times(x, a) >= Times(hi as real, z)
    ensures !(lm + um / 1152921504606846976.0 < x < um - um / 1152921504606846976.0)
  {
    var e := um / 1152921504606846976.0;
    TwoUnits(hi, um, a, z, e);
    assert Times((hi + 2) as real, z) == Times(hi as real, z) + 2.0 * z;
    assert Times((lo - 2) as real, z) == Times(lo as real, z) - 2.0 * z;
    assert Times(lm + e, a) == Times(lm, a) + Times(e, a);
    assert Times(um - e, a) == Times(um, a) - Times(e, a);
    CompareScaled(lm + e, x, a);
    CompareScaled(x, um - e, a);
  }

  lemma TwoUnits(hi: int, um: real, a: real, z: real, e: real)
    requires z > 0.0 && hi >= 2305843009213693952 && Times(hi as real, z) < Times(um, a)
    requires e == um / 1152921504606846976.0
    ensures Times(e, a) > 2.0 * z
  {
    CompareScaled(2305843009213693952.0, hi as real, z);
    assert Times(e, a) * 1152921504606846976.0 == Times(um, a);
  }

  /** grisu2: at most 17 digits, and the decimal lies strictly between the halfway points to the
      neighbouring doubles, while no decimal with one digit less is inside by more than the slack. */
  method Grisu2(bits: u64) returns (digits: seq<int>, k: int)
    requires FiniteNonZero(bits)
    ensures 1 <= |digits| <= 17 && IsDigits(digits) && digits[0] > 0 && -359 <= k <= 357
    ensures LowerMid(BuildFp(bits)) < Decimal(Value(digits), k) < UpperMid(BuildFp(bits))
    ensures NoneInside(BuildFp(bits), k + 1, Slack(BuildFp(bits)))
  {
    hide Generated, Inside, Slack, Half, LowerFrac, Shift, PowerTen;
    hide Pow2, RoundedProduct, UpperMid, LowerMid, Decimal, BuildFp;
    var fp := BuildFp(bits);
    var lower, upper := Boundaries(fp);
    var w := Normalize(fp);
    ShiftAtMost52(fp.frac);
    var cp, k10, i := FindCachedPow10(upper.exp);
    EveryRowGood(i);
    ScaledInterval(fp.frac, cp.frac);
    var w' := Multiply(w, cp);
    var upper' := Multiply(upper, cp);
    var lower' := Multiply(lower, cp);
    lower' := Fp(lower'.frac + 1, lower'.exp);
    upper' := Fp(upper'.frac - 1, upper'.exp);
    digits, k := GenerateDigits(w', upper', lower', -k10);
    DigitsGenerated(lower'.frac, w'.frac, upper'.frac, Pow2(-upper'.exp), digits, k + k10);
    AtMost17(|digits|, upper'.frac - lower'.frac, upper'.frac);
    StrictlyInside(fp, lower, upper, cp, i, digits, k + k10, w'.frac);
    var next := k + 1;
    forall q: int
      ensures !Inside(fp, Decimal(q, next), Slack(fp))
    {
      NoneShorter(fp, lower, upper, cp, i, digits, k + k10, w'.frac, q);
    }
  }

  lemma DigitsGenerated(lower: int, w: int, upper: int, one: int, digits: seq<int>, kappa: int)
    requires Generated(lower, w, upper, one, digits, kappa)
    ensures digits != [] && IsDigits(digits) && digits[0] > 0
    ensures |digits| >= 2 ==> Pow10(|digits| - 2) * (upper - lower) < upper
  {
    hide Printed;
  }

  lemma ShiftAtMost52(f: int)
    requires 0 < f < SPAN
    ensures Shift(f) <= 52
    ensures f >= HIDDEN ==> Shift(f) == 0
  {
    ShiftBound(f, 0);
  }
}
