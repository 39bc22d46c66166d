/** Decimal text of integers: std::to_string and the strict parser string2ll (include/redis_string_num.h:58-136). */
module Decimal {
  import opened Bytes
  import FpBase

  const MINUS: byte := '-' as int
  const ZERO: byte := '0' as int
  const NINE: byte := '9' as int

  const LLONG_MAX: int := 0x7FFF_FFFF_FFFF_FFFF
  const LLONG_MIN: int := -0x8000_0000_0000_0000
  const ULLONG_MAX: int := 0xFFFF_FFFF_FFFF_FFFF

  predicate IsInt64(v: int) { LLONG_MIN <= v <= LLONG_MAX }

  predicate IsDigit(b: byte) { ZERO <= b <= NINE }

  predicate AllDigits(s: Str) { forall i :: 0 <= i < |s| ==> IsDigit(s[i]) }

  function Digits(n: nat): (s: Str)
    ensures s != []
  {
    if n < 10 then [ZERO + n] else Digits(n / 10) + [ZERO + n % 10]
  }

  /** std::to_string. */
  function ToString(v: int): Str {
    if v < 0 then [MINUS] + Digits(-v) else Digits(v)
  }

  function Val(s: Str): int {
    if s == [] then 0 else 10 * Val(s[..|s| - 1]) + (s[|s| - 1] - ZERO)
  }

  lemma {:induction false} DigitsShape(n: nat)
    ensures AllDigits(Digits(n)) && Val(Digits(n)) == n
    ensures n > 0 ==> Digits(n)[0] != ZERO
    ensures n == 0 ==> Digits(n) == [ZERO]
  {
    if n >= 10 {
      DigitsShape(n / 10);
      assert Digits(n)[..|Digits(n)| - 1] == Digits(n / 10);
    }
  }

  lemma {:induction false} DigitsOfVal(s: Str)
    requires s != [] && AllDigits(s) && s[0] != ZERO
    ensures Val(s) > 0 && Digits(Val(s)) == s
  {
    var init := s[..|s| - 1];
    if init == [] {
      assert Val(s) == s[0] - ZERO && IsDigit(s[0]);
    } else {
      assert init[0] == s[0];
      DigitsOfVal(init);
      assert s == init + [s[|s| - 1]];
      assert IsDigit(s[|s| - 1]);
    }
  }

  /** Appending digits never makes the value smaller. */
  lemma {:induction false} ValGrows(s: Str, i: nat)
    requires i <= |s| && AllDigits(s)
    ensures 0 <= Val(s[..i]) <= Val(s)
    decreases |s|
  {
    if i == |s| {
      assert s[..i] == s;
      if s != [] {
        ValGrows(s[..|s| - 1], 0);
        ValGrows(s[..|s| - 1], |s| - 1);
        assert IsDigit(s[|s| - 1]);
      }
    } else {
      var init := s[..|s| - 1];
      ValGrows(init, i);
      assert init[..i] == s[..i];
      assert IsDigit(s[|s| - 1]);
    }
  }

  /** At most 19 digits, and 20 characters with a sign. */
  lemma Int64TextLength(v: int)
    requires IsInt64(v)
    ensures 1 <= |ToString(v)| <= 20
  {
    Length19(if v < 0 then -v else v);
  }

  lemma Length19(n: nat)
    requires n < 10000000000000000000
    ensures |Digits(n)| <= 19
  {
    FpBase.TensIsPow10(0);
    DigitsCount(n, 19);
  }

  lemma {:induction false} DigitsCount(n: nat, k: nat)
    requires k >= 1 && n < FpBase.Pow10(k)
    ensures |Digits(n)| <= k
    decreases k
  {
    if n >= 10 {
      assert k > 1;
      DigitsCount(n / 10, k - 1);
    }
  }

  /** string2ll accepts exactly the canonical decimals of the 64-bit integers, and returns their value. */
  method String2ll(s: Str) returns (ok: bool, value: int)
    ensures ok ==> IsInt64(value) && s == ToString(value)
    ensures !ok ==> forall v :: IsInt64(v) ==> s != ToString(v)
  {
    if |s| == 0 || |s| >= 21 {
      forall v | IsInt64(v) ensures s != ToString(v) {
        Int64TextLength(v);
      }
      return false, 0;
    }
    if |s| == 1 && s[0] == ZERO {
      return true, 0;
    }
    var p := 0;
    var negative := false;
    if s[0] == MINUS {
      negative := true;
      p := 1;
      if p == |s| {
        NotCanonical(s, negative);
        return false, 0;
      }
    }
    if !(ZERO + 1 <= s[p] <= NINE) {
      NotCanonical(s, negative);
      return false, 0;
    }
    var fits, end, v := ParseDigits(s, negative, p);
    if !fits || end < |s| {
      return false, 0;
    }
    hide ToString, AllDigits, Val, Digits;
    ghost var body := Body(s, negative);
    assert body[..|body|] == body;
    DigitsOfVal(body);
    if negative {
      if v > 0x7FFF_FFFF_FFFF_FFFF + 1 {
        TooLarge(s, negative, |body|);
        return false, 0;
      }
      value := -v;
    } else {
      if v > LLONG_MAX {
        TooLarge(s, negative, |body|);
        return false, 0;
      }
      value := v;
    }
    TextOfBody(s, negative, v);
    ok := true;
  }

  lemma TextOfBody(s: Str, negative: bool, v: int)
    requires s != [] && negative == (s[0] == MINUS) && v > 0 && Digits(v) == Body(s, negative)
    ensures s == ToString(if negative then -v else v)
  {
    assert negative ==> s == [MINUS] + s[1..];
  }

  /** The digit loop (lines 89-114): an unsigned accumulator, checked before each multiplication and addition. */
  method ParseDigits(s: Str, negative: bool, start: nat) returns (fits: bool, p: nat, v: int)
    requires s != [] && negative == (s[0] == MINUS) && start == (if negative then 1 else 0) && start < |s|
    requires ZERO + 1 <= s[start] <= NINE
    ensures fits ==> start < p <= |s|
    ensures fits && p == |s| ==> AllDigits(Body(s, negative)) && v == Val(Body(s, negative)) && v >= 0
    ensures !fits || p < |s| ==> forall x :: IsInt64(x) ==> s != ToString(x)
  {
    hide ToString, Digits;
    ghost var body := Body(s, negative);
    assert body == s[start..];
    v := s[start] - ZERO;
    p := start + 1;
    assert body[..1] == [body[0]];
    while p < |s| && IsDigit(s[p])
      invariant start < p <= |s| && 0 <= v <= ULLONG_MAX
      invariant AllDigits(body[..p - start]) && v == Val(body[..p - start])
    {
      ghost var i := p - start;
      assert body[..i + 1] == body[..i] + [s[p]] && body[..i + 1][..i] == body[..i];
      if v > ULLONG_MAX / 10 {
        TooLarge(s, negative, i + 1);
        return false, p, v;
      }
      v := v * 10;
      if v > ULLONG_MAX - (s[p] - ZERO) {
        TooLarge(s, negative, i + 1);
        return false, p, v;
      }
      v := v + (s[p] - ZERO);
      p := p + 1;
    }
    if p < |s| {
      assert body[p - start] == s[p];
      NotCanonical(s, negative);
    } else {
      assert body[..p - start] == body;
    }
    fits := true;
  }

  /** The digits of a candidate: everything after the sign. */
  function Body(s: Str, negative: bool): Str
    requires negative ==> s != []
  {
    if negative then s[1..] else s
  }

  /** Text whose digits are empty, start with a zero, or contain another character is no canonical decimal. */
  lemma NotCanonical(s: Str, negative: bool)
    requires s != [] && negative == (s[0] == MINUS) && s != [ZERO]
    requires var b := Body(s, negative); b == [] || b[0] == ZERO || !AllDigits(b)
    ensures forall v :: IsInt64(v) ==> s != ToString(v)
  {
    forall v | IsInt64(v) ensures s != ToString(v) {
      TextBody(v);
    }
  }

  lemma TextBody(v: int)
    ensures var s := ToString(v);
            && s != [] && (s[0] == MINUS <==> v < 0)
            && AllDigits(Body(s, v < 0)) && Body(s, v < 0) != []
            && (v != 0 ==> Body(s, v < 0)[0] != ZERO)
            && (v == 0 ==> s == [ZERO])
            && Val(Body(s, v < 0)) == if v < 0 then -v else v
  {
    DigitsShape(if v < 0 then -v else v);
    if v < 0 {
      assert ToString(v)[1..] == Digits(-v);
    } else {
      assert IsDigit(Digits(v)[0]);
    }
  }

  /** Digits whose prefix already exceeds the range are no 64-bit integer. */
  lemma TooLarge(s: Str, negative: bool, i: nat)
    requires s != [] && negative == (s[0] == MINUS)
    requires i <= |Body(s, negative)|
    requires Val(Body(s, negative)[..i]) > (if negative then -LLONG_MIN else LLONG_MAX)
    ensures forall v :: IsInt64(v) ==> s != ToString(v)
  {
    forall v | IsInt64(v) ensures s != ToString(v) {
      TextBody(v);
      if s == ToString(v) {
        ValGrows(Body(s, negative), i);
        assert false;
      }
    }
  }

  /** Two integers with the same text are equal: the text loses nothing. */
  lemma ToStringInjective(v: int, w: int)
    requires ToString(v) == ToString(w)
    ensures v == w
  {
    TextBody(v);
    TextBody(w);
  }

  // ---- overflow tests (lines 351-403) -------------------------------------------------------------

  /** C's integer division truncates toward zero. */
  function DivTrunc(a: int, b: int): int
    requires b != 0
  {
    if (a >= 0) == (b > 0) then Mag(a) / Mag(b) else -(Mag(a) / Mag(b))
  }

  function Mag(a: int): nat { if a < 0 then -a else a }

  predicate WillAdditionOverflow(a: int, b: int) {
    (a > 0 && b > 0 && a > LLONG_MAX - b) || (a < 0 && b < 0 && a < LLONG_MIN - b)
  }

  predicate WillMultiplicationOverflow(a: int, b: int) {
    if a == 0 || b == 0 then false
    else if a > 0 && b > 0 then a > DivTrunc(LLONG_MAX, b)
    else if a > 0 then b < DivTrunc(LLONG_MIN, a)
    else if b > 0 then a < DivTrunc(LLONG_MIN, b)
    else a < DivTrunc(LLONG_MAX, b)
  }

  lemma AdditionOverflowIff(a: int, b: int)
    requires IsInt64(a) && IsInt64(b)
    ensures WillAdditionOverflow(a, b) <==> !IsInt64(a + b)
  {
  }

  lemma MultiplicationOverflowIff(a: int, b: int)
    requires IsInt64(a) && IsInt64(b)
    ensures WillMultiplicationOverflow(a, b) <==> !IsInt64(a * b)
  {
    var x: int, y: int := Mag(a), Mag(b);
    assert a * b == if (a < 0) == (b < 0) then x * y else -(x * y);
    if x > 0 && y > 0 {
      ExceedsIff(x, y, 0x7FFF_FFFF_FFFF_FFFF);
      ExceedsIff(x, y, 0x8000_0000_0000_0000);
      ExceedsIff(y, x, 0x8000_0000_0000_0000);
    }
  }

  lemma ExceedsIff(x: nat, y: nat, limit: nat)
    requires y > 0
    ensures x > limit / y <==> x * y > limit
  {
    var q, r := limit / y, limit % y;
    assert limit == q * y + r && 0 <= r < y;
    if x > q {
      FpBase.ScaleOrder(q + 1, x, y);
      FpBase.Distribute(q, 1, y);
    } else {
      FpBase.ScaleOrder(x, q, y);
    }
  }
}
