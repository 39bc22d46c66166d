/** The printed decimal identifies its double: no other double is as close. */
module FpReadBack {
  import opened FpBase
  import opened FpReal
  import opened FpDouble
  import opened FpGrisu

  /** Zero is the one finite double that IsDouble leaves out. */
  predicate IsFinite(fp: Fp) {
    IsDouble(fp) || (fp.frac == 0 && fp.exp == -1074)
  }

  ghost function Signed(negative: bool, fp: Fp): real {
    if negative then -ValueOf(fp.frac, fp.exp) else ValueOf(fp.frac, fp.exp)
  }

  /** The halfway points in units of the spacing p = 2^exp. */
  lemma MidsInUnits(fp: Fp, p: real)
    requires p == P2(fp.exp)
    ensures 2.0 * UpperMid(fp) == Times((2 * fp.frac + 1) as real, p)
    ensures fp.frac != HIDDEN ==> 2.0 * LowerMid(fp) == Times((2 * fp.frac - 1) as real, p)
    ensures fp.frac == HIDDEN ==> 4.0 * LowerMid(fp) == Times((4 * fp.frac - 1) as real, p)
  {
    P2Step(fp.exp - 1);
    P2Step(fp.exp - 2);
    hide P2, Times;
    Doubling((2 * fp.frac + 1) as real, P2(fp.exp - 1));
    Doubling((2 * fp.frac - 1) as real, P2(fp.exp - 1));
    Doubling((4 * fp.frac - 1) as real, P2(fp.exp - 2));
    Doubling((4 * fp.frac - 1) as real, P2(fp.exp - 1));
  }

  lemma Doubling(x: real, q: real)
    ensures 2.0 * Times(x, q) == Times(x, 2.0 * q)
  {
  }

  /** A double with the same or a larger exponent is a whole number of units. */
  lemma WholeUnits(b: Fp, exp: int, p: real) returns (m: int)
    requires b.exp >= exp && p == P2(exp)
    ensures ValueOf(b.frac, b.exp) == Times(m as real, p) && m >= 0
  {
    hide P2;
    var n := b.exp - exp;
    var s := Pow2(n);
    m := b.frac * s;
    MulMonotone(0, b.frac, 0, s);
    assert P2(n) == s as real by { P2Nat(n); }
    P2Product(exp, n, P2(b.exp), p, s as real);
    Regroup(b.frac, s, p);
  }

  lemma Regroup(f: int, s: int, p: real)
    ensures Times(f as real, p * s as real) == Times((f * s) as real, p)
  {
    assert (f * s) as real == f as real * s as real;
    assert f as real * (p * s as real) == f as real * s as real * p;
  }

  /** A double with a smaller exponent lies below every normal one, by half a unit at least. */
  lemma SmallerExponent(b: Fp, exp: int, p: real)
    requires b.frac < SPAN && b.exp < exp && p == P2(exp)
    ensures 2.0 * ValueOf(b.frac, b.exp) <= Times((SPAN - 1) as real, p)
  {
    hide P2;
    var q, r := P2(b.exp), P2(exp - 1);
    assert p == 2.0 * r by { P2Step(exp - 1); }
    PowerGrows(b.exp, exp - 1);
    FracBound(b.frac as real, (SPAN - 1) as real, q, r, p);
  }

  lemma FracBound(x: real, y: real, q: real, r: real, p: real)
    requires 0.0 <= x <= y && 0.0 < q <= r && p == 2.0 * r
    ensures 2.0 * Times(x, q) <= Times(y, p)
  {
    assert x * q <= y * q <= y * r;
    assert y * p == 2.0 * (y * r);
  }

  lemma {:induction false} PowerGrows(a: int, b: int)
    requires a <= b
    ensures P2(a) <= P2(b)
    decreases b - a
  {
    if a < b {
      PowerGrows(a, b - 1);
      P2Step(b - 1);
    }
  }

  lemma UnitOrder(m: real, n: real, p: real)
    requires p > 0.0
    ensures m <= n <==> Times(m, p) <= Times(n, p)
    ensures m < n <==> Times(m, p) < Times(n, p)
    ensures Times(m, p) + Times(n, p) == Times(m + n, p)
  {
  }

  lemma IntegerGap(f: int, m: int)
    ensures m as real >= f as real + 1.0 || m as real == f as real || m as real <= f as real - 1.0
  {
    var d := m - f;
    if d >= 1 {
      assert d as real >= 1.0;
    } else if d <= -1 {
      assert d as real <= -1.0;
    }
  }

  lemma RealGap(f: real, m: real, p: real, up: real, down: real, quarter: real)
    requires p > 0.0 && (m >= f + 1.0 || m == f || m <= f - 1.0)
    requires up == 2.0 * f + 1.0 && down == 2.0 * f - 1.0 && quarter == 4.0 * f - 1.0
    ensures var v, y := Times(f, p), Times(m, p);
            && (y > v ==> v + y >= Times(up, p))
            && (y < v ==> v + y <= Times(down, p) && 2.0 * (v + y) <= Times(quarter, p))
  {
    if m >= f + 1.0 {
      ProductSign(m - f - 1.0, p);
    } else if m <= f - 1.0 {
      ProductSign(f - 1.0 - m, p);
    }
  }

  lemma FractionGap(f: int, y: real, p: real)
    requires p > 0.0 && f >= HIDDEN && 2.0 * y <= Times((SPAN - 1) as real, p)
    ensures var v := Times(f as real, p);
            && y < v
            && (f == HIDDEN ==> 4.0 * (v + y) <= 2.0 * Times((4 * f - 1) as real, p))
            && (f != HIDDEN ==> v + y <= Times((2 * f - 1) as real, p))
  {
    hide Times;
    var v := Times(f as real, p);
    UnitOrder(f as real, f as real, p);
    UnitOrder((SPAN - 1) as real, (2 * f) as real, p);
    UnitOrder((2 * f) as real, (SPAN - 1) as real, p);
    assert (2 * f) as real + (SPAN - 1) as real == (2 * f + SPAN - 1) as real;
    assert 2.0 * (v + y) <= Times((2 * f + SPAN - 1) as real, p);
    if f == HIDDEN {
      assert 2 * f + SPAN - 1 == 4 * f - 1;
    } else {
      UnitOrder((2 * f + SPAN - 1) as real, (4 * f - 2) as real, p);
      UnitOrder((2 * f - 1) as real, (2 * f - 1) as real, p);
    }
  }

  /** The halfway points separate fp from every other finite double. */
  lemma MidsSeparate(fp: Fp, b: Fp)
    requires IsDouble(fp) && IsFinite(b)
    ensures var v, y := ValueOf(fp.frac, fp.exp), ValueOf(b.frac, b.exp);
            && (y > v ==> v + y >= 2.0 * UpperMid(fp))
            && (y < v ==> v + y <= 2.0 * LowerMid(fp))
  {
    hide P2, Times, UpperMid, LowerMid;
    var p := P2(fp.exp);
    MidsInUnits(fp, p);
    if b.exp >= fp.exp {
      var m := WholeUnits(b, fp.exp, p);
      var f := fp.frac;
      IntegerGap(f, m);
      RealGap(f as real, m as real, p, (2 * f + 1) as real, (2 * f - 1) as real, (4 * f - 1) as real);
    } else {
      SmallerExponent(b, fp.exp, p);
      FractionGap(fp.frac, ValueOf(b.frac, b.exp), p);
    }
  }

  /** Any real strictly between the halfway points of fp is closer to fp than to any other finite double,
      of either sign: a correctly rounding reader returns fp. */
  lemma ReadsBack(fp: Fp, x: real, b: Fp, negative: bool)
    requires IsDouble(fp) && IsFinite(b) && LowerMid(fp) < x < UpperMid(fp)
    requires Signed(negative, b) != ValueOf(fp.frac, fp.exp)
    ensures AbsR(x - ValueOf(fp.frac, fp.exp)) < AbsR(x - Signed(negative, b))
  {
    hide P2, Times, UpperMid, LowerMid;
    MidsSeparate(fp, b);
    if negative {
      NegativeIsFar(fp, b);
    }
  }

  lemma NegativeIsFar(fp: Fp, b: Fp)
    requires IsDouble(fp) && IsFinite(b)
    ensures ValueOf(b.frac, b.exp) >= 0.0 && ValueOf(fp.frac, fp.exp) > 0.0
    ensures ValueOf(fp.frac, fp.exp) <= 2.0 * LowerMid(fp)
  {
    MidsSeparate(fp, Fp(0, -1074));
    UnitOrder(0.0, b.frac as real, P2(b.exp));
    UnitOrder(0.0, fp.frac as real, P2(fp.exp));
  }
}
