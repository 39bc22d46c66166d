/** Digit generation of Grisu2 (fpconv_dtoa.c:154-224).

    All three inputs share one binary exponent, so lengths are compared as plain integers: with
    `one = 2^-exp`, a decimal D * 10^kappa is the integer D * unit on a grid scaled by `scale`. */
module FpDigits {
  import opened FpBase

  function Dist(a: int, b: int): nat { if a < b then b - a else a - b }

  function Mul(d: int, unit: int): int { d * unit }

  /** Grid spacing of the last digit at decimal exponent kappa, and the factor that makes it an integer. */
  function UnitOf(one: int, kappa: int): int { if kappa >= 0 then Pow10(kappa) * one else one }

  function ScaleOf(kappa: int): int { if kappa >= 0 then 1 else Pow10(-kappa) }

  /** D is on the grid inside [lower, upper]; no other grid point inside is closer to w; and the ten times
      coarser grid has no point in (lower, upper], so no shorter digit string would do. */
  ghost predicate Printed(lower: int, w: int, upper: int, unit: int, scale: int, D: int) {
    && lower * scale <= Mul(D, unit) <= upper * scale
    && (forall d :: lower * scale <= Mul(d, unit) <= upper * scale ==>
                      Dist(Mul(D, unit), w * scale) <= Dist(Mul(d, unit), w * scale))
    && (forall q :: !(lower * scale < Mul(q, 10 * unit) <= upper * scale))
  }

  /** Stepping down `j` units is allowed and lands nearest to `frac` among all allowed step counts. */
  ghost predicate BestSteps(rem: int, kappa: int, delta: int, frac: int, j: nat) {
    && rem + Mul(j, kappa) <= delta
    && forall i: nat :: rem + Mul(i, kappa) <= delta ==>
                          Dist(rem + Mul(j, kappa), frac) <= Dist(rem + Mul(i, kappa), frac)
  }

  lemma MulStep(i: int, j: int, kappa: int)
    requires kappa > 0
    ensures i > j ==> Mul(i, kappa) >= Mul(j, kappa) + kappa
    ensures Mul(j + 1, kappa) == Mul(j, kappa) + kappa
  {
    if i > j {
      assert (i - j - 1) * kappa >= 0;
      assert i * kappa == j * kappa + kappa + (i - j - 1) * kappa;
    }
  }

  /** round_digit: lower the last digit while that moves strictly closer to w. */
  method RoundDigit(digits: seq<int>, delta: u64, rem0: u64, kappa: u64, frac: u64)
    returns (out: seq<int>, ghost j: nat)
    requires digits != [] && IsDigits(digits)
    requires kappa > 0 && rem0 <= delta
    requires rem0 + Mul(digits[|digits| - 1], kappa) >= delta
    ensures BestSteps(rem0, kappa, delta, frac, j)
    ensures j <= digits[|digits| - 1]
    ensures out == digits[|digits| - 1 := digits[|digits| - 1] - j] && IsDigits(out)
  {
    var last := |digits| - 1;
    var rem := rem0;
    out := digits;
    j := 0;
    while rem < frac && delta - rem >= kappa && (rem + kappa < frac || frac - rem > rem + kappa - frac)
      invariant rem == rem0 + Mul(j, kappa) && rem <= delta
      invariant j <= digits[last] && out == digits[last := digits[last] - j]
      invariant forall i: nat :: i <= j ==> Dist(rem, frac) <= Dist(rem0 + Mul(i, kappa), frac)
      decreases delta - rem
    {
      assert j < digits[last];
      MulStep(j + 1, j, kappa);
      out := out[last := out[last] - 1];
      rem := rem + kappa;
      j := j + 1;
    }
    forall i: nat | rem0 + Mul(i, kappa) <= delta
      ensures Dist(rem0 + Mul(j, kappa), frac) <= Dist(rem0 + Mul(i, kappa), frac)
    {
      if i > j {
        MulStep(i, j, kappa);
      }
    }
  }

  /** What the last generated digit and its rounding establish. */
  lemma Conclude(lower: int, w: int, upper: int, unit: int, scale: int, D: int, prefix: int, d: int, rem: int, j: nat,
                 rounded: int)
    requires 0 < lower <= w <= upper && unit > 0 && scale > 0
    requires upper * scale == Mul(D, unit) + rem && 0 <= rem < unit
    requires D == 10 * prefix + d && 0 <= d <= 9 && rem + Mul(d, unit) >= (upper - lower) * scale
    requires BestSteps(rem, unit, (upper - lower) * scale, (upper - w) * scale, j) && rounded == D - j
    ensures Printed(lower, w, upper, unit, scale, rounded)
  {
    var delta, frac := (upper - lower) * scale, (upper - w) * scale;
    assert delta == upper * scale - lower * scale && frac == upper * scale - w * scale;
    assert Mul(D - j, unit) == upper * scale - (rem + Mul(j, unit)) by {
      assert (D - j) * unit == D * unit - j * unit;
    }
    forall e | lower * scale <= Mul(e, unit) <= upper * scale
      ensures Dist(Mul(D - j, unit), w * scale) <= Dist(Mul(e, unit), w * scale)
    {
      var i := D - e;
      assert Mul(e, unit) == Mul(D, unit) - Mul(i, unit) by {
        assert e * unit == D * unit - (D - e) * unit;
      }
      if i < 0 {
        MulStep(0, i, unit);
        assert false;
      }
      var n: nat := i;
      assert rem + Mul(n, unit) <= delta;
    }
    assert Mul(j, unit) >= 0 by { MulStep(j, 0, unit); }
    forall q ensures !(lower * scale < Mul(q, 10 * unit) <= upper * scale) {
      NoCoarser(lower, upper, unit, scale, D, prefix, d, rem, q);
    }
  }

  lemma GridRefine(v: int, d: int, unit: int)
    ensures Mul(10 * v + d, unit) == Mul(v, 10 * unit) + Mul(d, unit) == Mul(10 * v, unit) + Mul(d, unit)
  {
    Distribute(10 * v, d, unit);
    TenTimes(v, unit);
    TenTimes(unit, v);
  }

  lemma NoCoarser(lower: int, upper: int, unit: int, scale: int, D: int, prefix: int, d: int, rem: int, q: int)
    requires unit > 0
    requires upper * scale == Mul(D, unit) + rem && 0 <= rem < unit
    requires D == 10 * prefix + d && 0 <= d <= 9 && rem + Mul(d, unit) >= (upper - lower) * scale
    ensures !(lower * scale < Mul(q, 10 * unit) <= upper * scale)
  {
    var big := 10 * unit;
    assert (upper - lower) * scale == upper * scale - lower * scale;
    GridRefine(prefix, d, unit);
    assert Mul(d, unit) <= 9 * unit by {
      assert d * unit <= 9 * unit;
    }
    if q <= prefix {
      MulStep(prefix, q, big);
    } else {
      MulStep(q, prefix, big);
    }
  }

  lemma NarrowerThanUpper(p: int, v: int, d: int, unit: int, width: int, total: int)
    requires 1 <= p <= v && 0 <= d <= 9 && unit > 0
    requires width < unit + Mul(d, unit) && total >= Mul(10 * v, unit)
    ensures p * width < total
  {
    assert Mul(d, unit) <= 9 * unit by {
      assert d * unit <= 9 * unit;
    }
    assert p * width < p * (10 * unit);
    assert (10 * v) * unit == v * (10 * unit);
    assert p * (10 * unit) <= v * (10 * unit);
  }

  lemma CoverBound(p: int, v: int, d: int, lower: int, upper: int, unit: int, scale: int, rem: int)
    requires 1 <= p <= v && 0 <= d <= 9 && unit > 0 && scale > 0
    requires upper * scale == Mul(10 * v + d, unit) + rem && 0 <= rem < unit
    requires rem + Mul(d, unit) >= (upper - lower) * scale
    ensures p * (upper - lower) < upper
  {
    var width, total, x := (upper - lower) * scale, upper * scale, p * (upper - lower);
    GridRefine(v, d, unit);
    assert Mul(d, unit) >= 0;
    NarrowerThanUpper(p, v, d, unit, width, total);
    assert p * width == x * scale;
    ScaleOrder(upper, x, scale);
  }

  /** At most n digits when 10^(n-1) times the interval width covers the upper bound. */
  lemma DigitCount(lower: int, upper: int, unit: int, scale: int, ds: seq<int>, rem: int)
    requires ds != [] && IsDigits(ds) && ds[0] > 0 && unit > 0 && scale > 0
    requires upper * scale == Mul(Value(ds), unit) + rem && 0 <= rem < unit
    requires rem + Mul(ds[|ds| - 1], unit) >= (upper - lower) * scale
    ensures |ds| >= 2 ==> Pow10(|ds| - 2) * (upper - lower) < upper
  {
    if |ds| >= 2 {
      var init := ds[..|ds| - 1];
      assert init[0] == ds[0];
      ValueLowerBound(init);
      CoverBound(Pow10(|ds| - 2), Value(init), ds[|ds| - 1], lower, upper, unit, scale, rem);
    }
  }

  /** The contract of digit generation at decimal exponent kappa. */
  ghost predicate Generated(lower: int, w: int, upper: int, one: int, digits: seq<int>, kappa: int) {
    && digits != [] && IsDigits(digits) && digits[0] > 0
    && Printed(lower, w, upper, UnitOf(one, kappa), ScaleOf(kappa), Value(digits))
    && (|digits| >= 2 ==> Pow10(|digits| - 2) * (upper - lower) < upper)
  }

  lemma RoundedValue(ds: seq<int>, out: seq<int>, j: int)
    requires ds != [] && out == ds[|ds| - 1 := ds[|ds| - 1] - j]
    ensures Value(out) == Value(ds) - j
    ensures Value(ds) == 10 * Value(ds[..|ds| - 1]) + ds[|ds| - 1]
    ensures |ds| == 1 ==> Value(out) == out[0]
    ensures |ds| > 1 ==> out[0] == ds[0]
  {
    assert out[..|ds| - 1] == ds[..|ds| - 1];
  }

  lemma LeadingDigitStays(lower: int, w: int, upper: int, unit: int, scale: int, D: int)
    requires 0 < lower && unit > 0 && scale > 0 && Printed(lower, w, upper, unit, scale, D)
    ensures D > 0
  {
    MulMonotone(1, lower, 1, scale);
    MulStep(1, D, unit);
  }

  /** The common exit of both loops: round the last digit and return. */
  method Close(ghost lower: int, ghost w: int, ghost upper: int, ghost one: int, ghost kappa: int,
               digits: seq<int>, delta: u64, rem: u64, unit: u64, frac: u64)
    returns (out: seq<int>)
    requires 0 < lower <= w <= upper && one > 0
    requires digits != [] && IsDigits(digits) && digits[0] > 0
    requires 0 < unit == UnitOf(one, kappa)
    requires delta == (upper - lower) * ScaleOf(kappa) && frac == (upper - w) * ScaleOf(kappa)
    requires upper * ScaleOf(kappa) == Mul(Value(digits), unit) + rem && rem < unit
    requires rem <= delta <= rem + Mul(digits[|digits| - 1], unit)
    ensures Generated(lower, w, upper, one, out, kappa)
  {
    ghost var j;
    out, j := RoundDigit(digits, delta, rem, unit, frac);
    ghost var last := |digits| - 1;
    RoundedValue(digits, out, j);
    Conclude(lower, w, upper, unit, ScaleOf(kappa), Value(digits), Value(digits[..last]), digits[last], rem, j,
             Value(out));
    DigitCount(lower, upper, unit, ScaleOf(kappa), digits, rem);
    LeadingDigitStays(lower, w, upper, unit, ScaleOf(kappa), Value(out));
  }

  /** `total` has been written as Value(digits) units plus a remainder that still exceeds the width. */
  ghost predicate Pending(total: int, width: int, unit: int, digits: seq<int>, rem: int) {
    && IsDigits(digits) && (digits != [] ==> digits[0] > 0)
    && total == Mul(Value(digits), unit) + rem
    && width <= rem < unit
  }

  /** Appending a digit, unless it is a leading zero (the two `if (digit || idx)` lines). */
  function Append(digits: seq<int>, digit: int): seq<int> {
    if digit != 0 || digits != [] then digits + [digit] else digits
  }

  /** Splitting one digit off the remainder on a ten times finer grid. */
  lemma SplitDigit(total: int, width: int, unit: int, digits: seq<int>, rem: int, digit: int, rest: int)
    requires unit > 0 && 0 < width < total
    requires Pending(total, width, 10 * unit, digits, rem)
    requires rem == Mul(digit, unit) + rest && 0 <= rest < unit
    ensures 0 <= digit <= 9
    ensures var ds := Append(digits, digit);
            && IsDigits(ds) && (ds != [] ==> ds[0] > 0)
            && total == Mul(Value(ds), unit) + rest
            && (rest <= width ==> ds == digits + [digit] && rest + Mul(ds[|ds| - 1], unit) >= width && unit <= total)
  {
    if digit < 0 {
      MulStep(0, digit, unit);
      assert false;
    }
    MulStep(digit, 9, unit);
    assert digit <= 9;
    var v := Value(digits);
    GridRefine(v, digit, unit);
    ValueSnoc(digits, digit);
    var ds := Append(digits, digit);
    assert Value(ds) == 10 * v + digit;
    if rest <= width {
      assert Mul(0, unit) == 0;
      assert ds != [];
      ValueLowerBound(ds);
      MulStep(Value(ds), 0, unit);
    }
  }

  lemma DivideDigit(part1: int, part2: int, div: int, one: int, digit: int)
    requires div > 0 && one > 0 && 0 <= part1 && 0 <= part2 < one && digit == part1 / div
    ensures 0 <= part1 - digit * div < div
    ensures part1 * one + part2 == Mul(digit, div * one) + ((part1 - digit * div) * one + part2)
    ensures 0 <= (part1 - digit * div) * one + part2 < div * one
    ensures digit * div >= 0
  {
    var rest := part1 % div;
    assert part1 == digit * div + rest;
    Regroup(rest, digit, div, one);
    MulStep(div, rest, one);
    MulMonotone(0, rest, one, one);
    MulMonotone(0, digit, div, div);
  }

  lemma Regroup(rest: int, digit: int, div: int, one: int)
    ensures (rest + digit * div) * one == rest * one + digit * (div * one)
  {
    assert (digit * div) * one == digit * (div * one);
  }

  /** generate_digits. */
  method GenerateDigits(fp: Fp, upper: Fp, lower: Fp, k0: int) returns (digits: seq<int>, k: int)
    requires 0 < lower.frac <= fp.frac <= upper.frac && lower.frac < upper.frac
    requires fp.exp == upper.exp == lower.exp && -60 <= upper.exp <= -32
    ensures Generated(lower.frac, fp.frac, upper.frac, Pow2(-upper.exp), digits, k - k0)
    ensures -19 <= k - k0 <= 9
  {
    var one := OneAt(-upper.exp);
    var ok, part2;
    ok, digits, k, part2 := IntegralDigits(fp.frac, upper.frac, lower.frac, one, k0);
    if !ok {
      digits, k := FractionDigits(fp.frac, upper.frac, lower.frac, one, digits, part2, k0);
    }
  }

  function OneAt(e: nat): (one: u64)
    requires 32 <= e <= 60
    ensures one == Pow2(e) && TWO32 <= one <= 0x1000_0000_0000_0000
  {
    Pow2Literals();
    Pow2Monotone(e, 60);
    Pow2Monotone(32, e);
    Pow2(e)
  }

  /** The value split over an integral and a fractional part. */
  function Joined(part1: int, one: int, part2: int): int { part1 * one + part2 }

  /** One round of the first loop up to the comparison with delta (lines 182-192). */
  method NextIntegralDigit(ghost upper: u64, ghost delta: int, one: u64, digits0: seq<int>, ghost kappa: nat,
                           div: u64, part0: u64, part2: u64)
    returns (digits: seq<int>, part1: u64, tmp: u64)
    requires 0 < delta < upper && div == Pow10(kappa) && part2 < one && kappa <= 9
    requires Pending(upper, delta, UnitOf(one, kappa + 1), digits0, Joined(part0, one, part2))
    ensures tmp == Joined(part1, one, part2) && part1 < div
    ensures 0 <= tmp < UnitOf(one, kappa)
    ensures IsDigits(digits) && (digits != [] ==> digits[0] > 0)
    ensures upper == Mul(Value(digits), UnitOf(one, kappa)) + tmp
    ensures tmp <= delta ==> digits != [] && tmp + Mul(digits[|digits| - 1], UnitOf(one, kappa)) >= delta
    ensures tmp <= delta ==> 0 < UnitOf(one, kappa) <= upper
  {
    var digit := part0 / div;
    DivideDigit(part0, part2, div, one, digit);
    UnitTenth(one, kappa);
    ghost var unit := UnitOf(one, kappa);
    ghost var rem := Joined(part0, one, part2);
    assert rem <= upper by {
      if digits0 != [] {
        ValueLowerBound(digits0);
        MulStep(Value(digits0), 0, 10 * unit);
      }
    }
    part1 := part0 - digit * div;
    assert rem == Mul(digit, unit) + Joined(part1, one, part2);
    assert Mul(digit, unit) >= 0;
    tmp := part1 * one + part2;
    SplitDigit(upper, delta, unit, digits0, rem, digit, tmp);
    digits := Append(digits0, digit);
  }

  /** The first loop of generate_digits (lines 178-199): digits before the point. */
  method IntegralDigits(w: u64, upper: u64, lower: u64, one: u64, k0: int)
    returns (done: bool, digits: seq<int>, k: int, part2: u64)
    requires 0 < lower <= w <= upper && lower < upper && TWO32 <= one
    ensures done ==> Generated(lower, w, upper, one, digits, k - k0) && 0 <= k - k0 <= 9
    ensures !done ==> Pending(upper, upper - lower, one, digits, part2)
  {
    hide Pow10, Value, Mul, UnitOf, Joined, Pending, Generated;
    var wfrac: u64 := upper - w;
    var delta: u64 := upper - lower;
    IntegralStart(upper, lower, one);
    var part1: u64 := upper / one;
    part2 := upper % one;
    digits := [];
    k := k0;
    var kappa, divp := 10, 10;
    while kappa > 0
      invariant 0 <= kappa <= 10 && divp == 20 - kappa && k == k0 && part2 < one
      invariant Pending(upper, delta, UnitOf(one, kappa), digits, Joined(part1, one, part2))
      invariant part1 < Pow10(kappa)
    {
      TensIsPow10(divp);
      var div := Tens(divp);
      var tmp;
      kappa := kappa - 1;
      digits, part1, tmp := NextIntegralDigit(upper, delta, one, digits, kappa, div, part1, part2);
      if tmp <= delta {
        k := k + kappa;
        IntegralUnit(kappa, one, div);
        digits := Close(lower, w, upper, one, kappa, digits, delta, tmp, div * one, wfrac);
        return true, digits, k, part2;
      }
      StillPending(upper, delta, one, kappa, digits, part1, part2, tmp);
      divp := divp + 1;
    }
    IntegralEnd(one, part1, part2);
    done := false;
  }

  lemma HalvesFit(x: u64, one: u64)
    requires one > 0
    ensures 0 <= x / one <= x && 0 <= x % one < one && Joined(x / one, one, x % one) == x
  {
    var q := x / one;
    assert x == q * one + x % one;
    MulMonotone(q, q, 1, one);
  }

  lemma IntegralStart(upper: u64, lower: u64, one: u64)
    requires lower < upper && 0 < lower && TWO32 <= one
    ensures 0 <= upper / one <= upper && 0 <= upper % one < one && upper / one < Pow10(10)
    ensures Pending(upper, upper - lower, UnitOf(one, 10), [], Joined(upper / one, one, upper % one))
  {
    HalvesFit(upper, one);
    var q := upper / one;
    assert Pow10(10) == 10000000000;
    MulMonotone(q, q, TWO32, one);
    hide Joined;
    assert Mul(0, UnitOf(one, 10)) == 0;
  }

  lemma IntegralEnd(one: int, part1: nat, part2: int)
    requires part1 < Pow10(0)
    ensures UnitOf(one, 0) == one && Joined(part1, one, part2) == part2
  {
  }

  lemma IntegralUnit(kappa: nat, one: int, div: int)
    requires div == Pow10(kappa)
    ensures UnitOf(one, kappa) == div * one && ScaleOf(kappa) == 1
  {
  }

  lemma StillPending(upper: int, delta: int, one: int, kappa: nat, digits: seq<int>, part1: int, part2: int, tmp: int)
    requires IsDigits(digits) && (digits != [] ==> digits[0] > 0)
    requires upper == Mul(Value(digits), UnitOf(one, kappa)) + tmp && delta < tmp < UnitOf(one, kappa)
    requires tmp == Joined(part1, one, part2)
    ensures Pending(upper, delta, UnitOf(one, kappa), digits, Joined(part1, one, part2))
  {
  }

  lemma UnitTenth(one: int, kappa: nat)
    ensures UnitOf(one, kappa + 1) == 10 * UnitOf(one, kappa)
    ensures UnitOf(one, 0) == one
  {
    assert (10 * Pow10(kappa)) * one == 10 * (Pow10(kappa) * one);
  }

  /** One round of the second loop up to the comparison with delta (lines 205-214). */
  method NextFractionDigit(ghost upper: int, ghost lower: int, ghost scale: int, one: u64, digits0: seq<int>,
                           delta0: u64, part0: u64)
    returns (digits: seq<int>, delta: u64, part2: u64)
    requires 0 < lower < upper && scale > 0 && 0 < one <= 0x1000_0000_0000_0000
    requires 0 < delta0 == (upper - lower) * scale
    requires Pending(upper * scale, delta0, one, digits0, part0)
    ensures delta == 10 * delta0 == (upper - lower) * (10 * scale)
    ensures upper * (10 * scale) == Mul(Value(digits), one) + part2 && part2 < one
    ensures IsDigits(digits) && (digits != [] ==> digits[0] > 0)
    ensures part2 <= delta ==> digits != [] && part2 + Mul(digits[|digits| - 1], one) >= delta
  {
    TimesTen(upper, lower, scale, one, digits0, delta0, part0);
    part2 := part0 * 10;
    delta := delta0 * 10;
    ghost var rem := part2;
    HalvesFit(part2, one);
    var digit := part2 / one;
    part2 := part2 % one;
    SplitDigit(upper * (10 * scale), delta, one, digits0, rem, digit, part2);
    digits := Append(digits0, digit);
  }

  /** The second loop of generate_digits (lines 201-223): one digit after the point per round. */
  method FractionDigits(w: u64, upper: u64, lower: u64, one: u64, digits0: seq<int>, part0: u64, k0: int)
    returns (digits: seq<int>, k: int)
    requires 0 < lower <= w <= upper && lower < upper && 0 < one <= 0x1000_0000_0000_0000
    requires Pending(upper, upper - lower, one, digits0, part0)
    ensures Generated(lower, w, upper, one, digits, k - k0) && -19 <= k - k0 < 0
  {
    hide Generated, Value, Joined;
    assert Pow10(0) == 1;
    hide Pow10;
    digits := digits0;
    var part2, delta, kappa, unit := part0, upper - lower, 0, 18;
    while true
      invariant -18 <= kappa <= 0 && unit == 18 + kappa
      invariant 0 < delta == (upper - lower) * Pow10(-kappa)
      invariant Pending(upper * Pow10(-kappa), delta, one, digits, part2)
      decreases 18 + kappa
    {
      digits, delta, part2 := NextFractionDigit(upper, lower, Pow10(-kappa), one, digits, delta, part2);
      kappa := kappa - 1;
      if part2 < delta {
        TensIsPow10(unit);
        FracFits(w, upper, lower, Tens(unit));
        digits := Close(lower, w, upper, one, kappa, digits, delta, part2, one, (upper - w) * Tens(unit));
        k := k0 + kappa;
        return;
      }
      RoundsBounded(upper - lower, -kappa, delta, part2, one);
      unit := unit - 1;
    }
  }

  lemma TimesTen(upper: int, lower: int, scale: int, one: int, digits: seq<int>, delta: int, rem: int)
    requires 0 < lower < upper && scale > 0 && 0 < delta == (upper - lower) * scale
    requires Pending(upper * scale, delta, one, digits, rem)
    ensures 10 * delta == (upper - lower) * (10 * scale) && 10 * delta < upper * (10 * scale)
    ensures Pending(upper * (10 * scale), 10 * delta, 10 * one, digits, 10 * rem)
  {
    TenTimes(Value(digits), one);
    TenTimes(upper, scale);
    TenTimes(upper - lower, scale);
    Distribute(upper, lower, scale);
    MulMonotone(1, lower, 1, scale);
  }

  lemma FracFits(w: int, upper: int, lower: int, p: int)
    requires lower <= w <= upper && p > 0
    ensures 0 <= (upper - w) * p <= (upper - lower) * p
  {
    MulMonotone(upper - w, upper - lower, p, p);
  }

  /** Ten-fold growth of delta overtakes a remainder below 2^60 in at most 19 rounds. */
  lemma RoundsBounded(width: int, n: nat, delta: int, rem: int, one: int)
    requires width >= 1 && delta == width * Pow10(n) && delta <= rem < one <= 0x1000_0000_0000_0000
    ensures n <= 18
  {
    if n >= 19 {
      Pow10Monotone(19, n);
      TensIsPow10(0);
      MulMonotone(1, width, Pow10(n), Pow10(n));
      assert false;
    }
  }
}
