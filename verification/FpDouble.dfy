/** Taking a double apart (fpconv_dtoa.c:85-135). */
module FpDouble {
  import opened FpBase

  const HIDDEN: int := 0x10_0000_0000_0000          // 2^52
  const SPAN: int := 0x20_0000_0000_0000            // 2^53

  /** The significand and exponent of a positive finite double: denormals have the smallest exponent. */
  predicate IsDouble(fp: Fp) {
    && 0 < fp.frac < SPAN
    && -1074 <= fp.exp <= 971
    && (fp.frac >= HIDDEN || fp.exp == -1074)
  }

  function FractionField(bits: u64): int { bits % 0x10_0000_0000_0000 }

  function ExponentField(bits: u64): int { (bits / 0x10_0000_0000_0000) % 2048 }

  predicate FiniteNonZero(bits: u64) {
    ExponentField(bits) != 2047 && (ExponentField(bits) != 0 || FractionField(bits) != 0)
  }

  /** build_fp. */
  function BuildFp(bits: u64): (fp: Fp)
    ensures FiniteNonZero(bits) ==> IsDouble(fp)
  {
    if ExponentField(bits) != 0 then
      Fp(FractionField(bits) + HIDDEN, ExponentField(bits) - 1075)
    else
      Fp(FractionField(bits), -1074)
  }

  /** Every positive finite double comes from exactly one non-negative bit pattern. */
  lemma BuildFpOnto(fp: Fp)
    requires IsDouble(fp)
    ensures var bits := if fp.frac >= HIDDEN then (fp.exp + 1075) * HIDDEN + (fp.frac - HIDDEN) else fp.frac;
            0 <= bits < 0x7FF0_0000_0000_0000 && FiniteNonZero(bits) && BuildFp(bits) == fp
  {
    var bits := if fp.frac >= HIDDEN then (fp.exp + 1075) * HIDDEN + (fp.frac - HIDDEN) else fp.frac;
    if fp.frac >= HIDDEN {
      var e, f := fp.exp + 1075, fp.frac - HIDDEN;
      assert 1 <= e <= 2046 && 0 <= f < 0x10_0000_0000_0000;
      assert bits / 0x10_0000_0000_0000 == e && bits % 0x10_0000_0000_0000 == f;
    }
  }

  /** How far a significand must move left until its top bit is bit 52. */
  function Shift(f: int): (h: nat)
    requires 0 < f < SPAN
    ensures HIDDEN <= f * Pow2(h) < SPAN
    decreases SPAN - f
  {
    if f >= HIDDEN then 0
    else
      ShiftDouble(f, Pow2(Shift(2 * f)));
      1 + Shift(2 * f)
  }

  lemma ShiftDouble(f: int, p: int)
    ensures (2 * f) * p == f * (2 * p)
  {
  }

  lemma {:induction false} ShiftBound(f: int, p: nat)
    requires 0 < f < SPAN && f >= Pow2(p) && p <= 52
    ensures Shift(f) + p <= 52
    decreases SPAN - f
  {
    if f < HIDDEN {
      assert p < 52 by {
        Pow2Literals();
        Pow2Add(52, 8);
        assert Pow2(8) == 256;
      }
      ShiftBound(2 * f, p + 1);
    }
  }

  /** The halfway point above sits one bit below the double, so it needs the same shift. */
  lemma UpperBit(f: int, s: nat)
    requires 0 < f < SPAN && s <= 52
    ensures f * Pow2(s) < HIDDEN ==> (2 * f + 1) * Pow2(s) < SPAN
    ensures f * Pow2(s) >= HIDDEN ==> (2 * f + 1) * Pow2(s) >= SPAN
    ensures f * Pow2(s) < SPAN ==> (2 * f + 1) * Pow2(s) < 2 * SPAN
  {
    hide Pow2;
    var p, q := Pow2(s), Pow2(52 - s);
    Pow2Add(s, 52 - s);
    Pow2Fifty2();
    var x := f * p;
    assert (2 * f + 1) * p == 2 * x + p by {
      Distribute(2 * f, 1, p);
      ShiftDouble(f, p);
    }
    assert x < HIDDEN ==> x + p <= HIDDEN by { FactorOrder(f, q, p); }
    assert x < SPAN ==> x + p <= SPAN by {
      FactorOrder(f, 2 * q, p);
      assert p * (2 * q) == 2 * (p * q);
    }
  }

  lemma Pow2Fifty2()
    ensures Pow2(52) == HIDDEN
  {
    Pow2Literals();
    Pow2Add(52, 8);
    assert Pow2(8) == 256;
  }

  lemma FactorOrder(f: int, q: int, p: int)
    requires p > 0
    ensures f * p < p * q ==> f * p + p <= p * q
  {
    ScaleOrder(f + 1, q, p);
    ScaleOrder(q, f, p);
    Distribute(f, 1, p);
  }

  lemma {:induction false} ShiftUnique(f: int, s: nat)
    requires 0 < f < SPAN && f * Pow2(s) >= HIDDEN && s <= Shift(f)
    ensures s == Shift(f)
    decreases SPAN - f
  {
    if f < HIDDEN {
      if s > 0 {
        ShiftDouble(f, Pow2(s - 1));
        ShiftUnique(2 * f, s - 1);
      }
    }
  }

  /** Half the spacing of the doubles around f, on the normalised 64-bit scale where f itself is 2 f Half(f). */
  function Half(f: int): (p: nat)
    requires 0 < f < SPAN
    ensures p == 1024 * Pow2(Shift(f))
    ensures p >= 1024 && (f >= HIDDEN ==> p == 1024)
    ensures TWO63 <= 2 * f * p && (2 * f + 1) * p < TWO64
  {
    HalfFacts(f, Pow2(Shift(f)));
    1024 * Pow2(Shift(f))
  }

  lemma HalfFacts(f: int, q: nat)
    requires 0 < f < SPAN && q == Pow2(Shift(f))
    ensures TWO63 <= 2 * f * (1024 * q) && (2 * f + 1) * (1024 * q) < TWO64
  {
    hide Pow2;
    var x, y := f * q, (2 * f + 1) * q;
    Pow2Zero();
    ShiftBound(f, 0);
    UpperBit(f, Shift(f));
    Thousands(f, q);
  }

  lemma Pow2Zero()
    ensures Pow2(0) == 1
  {
  }

  lemma Thousands(f: int, q: int)
    ensures 2 * f * (1024 * q) == 2048 * (f * q)
    ensures (2 * f + 1) * (1024 * q) == 1024 * ((2 * f + 1) * q)
  {
  }

  predicate BitSet(x: int, unit: int)
    requires unit > 0
  {
    (x / unit) % 2 == 1
  }

  lemma TopBit(f: int)
    requires 0 < f < SPAN
    ensures BitSet(f, HIDDEN) <==> f >= HIDDEN
  {
  }

  /** One more place to go. */
  lemma ShiftStep(f: int)
    requires 0 < f < HIDDEN
    ensures Shift(f) == 1 + Shift(2 * f) && f * Pow2(Shift(f)) == (2 * f) * Pow2(Shift(2 * f))
  {
    hide Shift, Pow2;
    ShiftUnfold(f);
    Pow2Unfold(Shift(2 * f));
    ShiftDouble(f, Pow2(Shift(2 * f)));
  }

  lemma ShiftUnfold(f: int)
    requires 0 < f < HIDDEN
    ensures Shift(f) == 1 + Shift(2 * f)
  {
    hide Pow2;
  }

  lemma Pow2Unfold(h: nat)
    ensures Pow2(1 + h) == 2 * Pow2(h)
  {
  }

  lemma NoShift(f: int)
    requires HIDDEN <= f < SPAN
    ensures Shift(f) == 0 && f * Pow2(Shift(f)) == f
  {
  }

  /** normalize: the same number with bit 63 set. */
  method Normalize(fp: Fp) returns (r: Fp)
    requires 0 < fp.frac < SPAN
    ensures r.frac == 2 * fp.frac * Half(fp.frac)
    ensures r.exp == fp.exp - Shift(fp.frac) - 11
  {
    hide Half, Shift, Pow2, BitSet;
    var frac, exp := fp.frac, fp.exp;
    ghost var s := 0;
    ghost var p := Pow2(Shift(fp.frac));
    while !BitSet(frac, HIDDEN)
      invariant 0 < frac < SPAN && exp == fp.exp - s
      invariant Shift(fp.frac) == s + Shift(frac)
      invariant frac * Pow2(Shift(frac)) == fp.frac * p
      decreases SPAN - frac
    {
      TopBit(frac);
      ShiftStep(frac);
      frac := frac * 2;
      exp := exp - 1;
      s := s + 1;
    }
    TopBit(frac);
    NoShift(frac);
    Thousands(fp.frac, p);
    r := Fp(frac * 2048, exp - 11);
  }

  function LowerFrac(f: int): int
    requires 0 < f < SPAN
  {
    if f == HIDDEN then 2 * f * Half(f) - 512 else (2 * f - 1) * Half(f)
  }

  /** get_normalized_boundaries: the halfway points to the neighbouring doubles, both at the exponent
      of the upper one. */
  method Boundaries(fp: Fp) returns (lower: Fp, upper: Fp)
    requires 0 < fp.frac < SPAN
    ensures upper.frac == (2 * fp.frac + 1) * Half(fp.frac) && lower.frac == LowerFrac(fp.frac)
    ensures upper.exp == lower.exp == fp.exp - Shift(fp.frac) - 11
  {
    hide Pow2, Half, Shift, LowerFrac;
    var u, e := UpperShift(fp.frac, fp.exp - 1);
    Thousands(fp.frac, Pow2(Shift(fp.frac)));
    assert u * 1024 == (2 * fp.frac + 1) * Half(fp.frac);
    upper := Fp(u * 1024, e - 10);
    lower := LowerBoundary(fp, upper.exp);
  }

  /** The loop of lines 118-121. */
  method UpperShift(f: int, exp: int) returns (u: int, e: int)
    requires 0 < f < SPAN
    ensures u == (2 * f + 1) * Pow2(Shift(f)) && e == exp - Shift(f)
  {
    ghost var h := Shift(f);
    ShiftBound(f, 0);
    u, e := f * 2 + 1, exp;
    ghost var s := 0;
    while !BitSet(u, SPAN)
      invariant 0 <= s <= h && e == exp - s
      invariant u == (2 * f + 1) * Pow2(s) && 0 < u < 2 * SPAN
      decreases h - s
    {
      assert u < SPAN;
      UpperBit(f, s);
      ShiftDouble(2 * f + 1, Pow2(s));
      u := u * 2;
      e := e - 1;
      s := s + 1;
    }
    UpperBit(f, s);
    ShiftUnique(f, s);
  }

  /** The lower boundary, aligned to the exponent of the upper one (lines 128-134). */
  method LowerBoundary(fp: Fp, exp: int) returns (lower: Fp)
    requires 0 < fp.frac < SPAN && exp == fp.exp - Shift(fp.frac) - 11
    ensures lower.frac == LowerFrac(fp.frac) && lower.exp == exp
  {
    hide Pow2, Half, Shift, LowerFrac;
    LowerFits(fp.frac);
    var l := if fp.frac == HIDDEN then 2 else 1;
    var frac := fp.frac * (if l == 2 then 4 else 2) - 1;
    lower := Fp(frac * Pow2(fp.exp - l - exp), exp);
  }

  lemma LowerFits(f: int)
    requires 0 < f < SPAN
    ensures 0 <= LowerFrac(f) < TWO64
    ensures f == HIDDEN ==> (f * 4 - 1) * Pow2(Shift(f) + 9) == LowerFrac(f)
    ensures f != HIDDEN ==> (f * 2 - 1) * Pow2(Shift(f) + 10) == LowerFrac(f)
  {
    if f == HIDDEN {
      assert Pow2(9) == 512;
    } else {
      var p := Half(f);
      assert Pow2(Shift(f) + 10) == p by {
        Pow2Add(10, Shift(f));
        assert Pow2(10) == 1024;
      }
      ScaleOrder(0, 2 * f - 1, p);
      ScaleOrder(2 * f - 1, 2 * f + 1, p);
    }
  }
}
