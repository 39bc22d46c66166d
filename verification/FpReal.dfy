/** Real-number powers, and the accuracy of the cached powers of ten. */
module FpReal {
  import opened FpBase
  import opened FpPowers

  ghost function P2(e: int): (r: real)
    ensures r > 0.0
    decreases if e < 0 then -e else e
  {
    if e == 0 then 1.0 else if e > 0 then 2.0 * P2(e - 1) else P2(e + 1) / 2.0
  }

  ghost function P10(k: int): (r: real)
    ensures r > 0.0
    decreases if k < 0 then -k else k
  {
    if k == 0 then 1.0 else if k > 0 then 10.0 * P10(k - 1) else P10(k + 1) / 10.0
  }

  lemma ScaleFactor(c: real, x: real, p: real, q: real, x': real, q': real)
    requires c > 0.0 && x' == c * x && q' == c * q
    ensures x == p * q <==> x' == p * q'
  {
    assert p * q' == c * (p * q);
  }

  lemma P2Step(e: int)
    ensures P2(e + 1) == 2.0 * P2(e)
  {
  }

  /** x = base^(a+b), y = base^a, z = base^b. */
  lemma {:induction false} P2Product(a: int, b: int, x: real, y: real, z: real)
    requires x == P2(a + b) && y == P2(a) && z == P2(b)
    ensures x == y * z
    decreases if b < 0 then -b else b
  {
    if b > 0 {
      var x', z' := P2(a + b - 1), P2(b - 1);
      P2Product(a, b - 1, x', y, z');
      P2Step(a + b - 1);
      P2Step(b - 1);
      ScaleFactor(2.0, x', y, z', x, z);
    } else if b < 0 {
      var x', z' := P2(a + b + 1), P2(b + 1);
      P2Product(a, b + 1, x', y, z');
      P2Step(a + b);
      P2Step(b);
      ScaleFactor(2.0, x, y, z, x', z');
    }
  }

  lemma P10Step(e: int)
    ensures P10(e + 1) == 10.0 * P10(e)
  {
  }

  /** x = base^(a+b), y = base^a, z = base^b. */
  lemma {:induction false} P10Product(a: int, b: int, x: real, y: real, z: real)
    requires x == P10(a + b) && y == P10(a) && z == P10(b)
    ensures x == y * z
    decreases if b < 0 then -b else b
  {
    if b > 0 {
      var x', z' := P10(a + b - 1), P10(b - 1);
      P10Product(a, b - 1, x', y, z');
      P10Step(a + b - 1);
      P10Step(b - 1);
      ScaleFactor(10.0, x', y, z', x, z);
    } else if b < 0 {
      var x', z' := P10(a + b + 1), P10(b + 1);
      P10Product(a, b + 1, x', y, z');
      P10Step(a + b);
      P10Step(b);
      ScaleFactor(10.0, x, y, z, x', z');
    }
  }

  lemma {:induction false} P2Nat(n: nat)
    ensures P2(n) == Pow2(n) as real
  {
    if n > 0 {
      P2Nat(n - 1);
    }
  }

  lemma {:induction false} P10Nat(n: nat)
    ensures P10(n) == Pow10(n) as real
  {
    if n > 0 {
      P10Nat(n - 1);
    }
  }

  ghost function AbsR(x: real): real { if x < 0.0 then -x else x }

  ghost function Times(a: real, b: real): real { a * b }

  /** t is the exact significand of 10^k at binary exponent e. */
  ghost predicate IsTen(t: real, e: int, k: int) {
    Times(t, P2(e)) == P10(k)
  }

  function BinadeFactor(d: int): int { if d == 26 then 67108864 else 134217728 }

  /** Eight decimal orders up, d binary orders up. */
  lemma IsTenStep(t: real, e: int, k: int, d: int, t': real, q: real, p: real, q': real, p': real)
    requires 26 <= d <= 27 && Times(t', BinadeFactor(d) as real) == Times(t, 100000000.0)
    requires q == P2(e) && p == P10(k) && q' == P2(e + d) && p' == P10(k + 8)
    ensures Times(t, q) == p <==> Times(t', q') == p'
  {
    hide P2, P10, Times;
    EightUp(k, p, p');
    BinadesUp(e, d, q, q');
    CrossMultiply(t, q, p, t', q', p', BinadeFactor(d) as real, 100000000.0);
  }

  lemma EightUp(k: int, p: real, p': real)
    requires p == P10(k) && p' == P10(k + 8)
    ensures p' == Times(p, 100000000.0)
  {
    TenToEight();
    P10Product(k, 8, p', p, 100000000.0);
  }

  lemma BinadesUp(e: int, d: int, q: real, q': real)
    requires 26 <= d <= 27 && q == P2(e) && q' == P2(e + d)
    ensures q' == Times(q, BinadeFactor(d) as real)
  {
    TwoToBinade(d);
    P2Product(e, d, q', q, BinadeFactor(d) as real);
  }

  lemma TenToEight()
    ensures P10(8) == 100000000.0
  {
    P10Nat(8);
  }

  lemma TwoToBinade(d: int)
    requires 26 <= d <= 27
    ensures P2(d) == BinadeFactor(d) as real
  {
    P2Nat(13);
    assert Pow2(13) == 8192;
    P2Product(13, 13, P2(26), P2(13), P2(13));
    P2Step(26);
  }

  lemma CrossMultiply(t: real, q: real, p: real, t': real, q': real, p': real, m: real, f: real)
    requires f > 0.0 && Times(t', m) == Times(t, f) && q' == Times(q, m) && p' == Times(p, f)
    ensures Times(t, q) == p <==> Times(t', q') == p'
  {
    var x := t * q;
    assert t' * q' == (t' * m) * q;
    assert (t * f) * q == x * f;
  }

  ghost function WideError(t: real, wide: int): real {
    AbsR(t * 18446744073709551616.0 - wide as real) * 1152921504606846976.0
  }

  /** The wide significand is within n units of relative error 2^-60 of t. */
  ghost predicate Near(t: real, wide: int, c: int, n: int) {
    WideError(t, wide) <= (c * n) as real
  }

  /** The error of a neighbouring row grows by one unit. */
  lemma NearStep(t: real, w: int, c: int, t': real, w': int, c': int, d: int, n: int)
    requires 26 <= d <= 27 && t' * BinadeFactor(d) as real == t * 100000000.0
    requires 0 <= n <= 86 && c >= 0x8000_0000_0000_0000 && c' >= 0x8000_0000_0000_0000
    requires var p := BinadeFactor(d);
             && -2 * p <= c * 100000000 - c' * p <= 2 * p
             && -2 * p <= w * 100000000 - w' * p <= 2 * p
    ensures Near(t, w, c, n) ==> Near(t', w', c', n + 1)
    ensures Near(t', w', c', n) ==> Near(t, w, c, n + 1)
  {
    var p := BinadeFactor(d);
    var y, y' := c * n, c' * n;
    ScaledBound(c, c', p, n);
    assert c * (n + 1) == y + c && c' * (n + 1) == y' + c';
    if d == 26 {
      ErrorStep26(t, w, t', w');
      Absorb26(WideError(t, w), WideError(t', w'), y, y', c, c', n);
    } else {
      ErrorStep27(t, w, t', w');
      Absorb27(WideError(t, w), WideError(t', w'), y, y', c, c', n);
    }
  }

  lemma ScaledBound(c: int, c': int, p: int, n: int)
    requires -2 * p <= c * 100000000 - c' * p <= 2 * p && n >= 0
    ensures -2 * (p * n) <= 100000000 * (c * n) - p * (c' * n) <= 2 * (p * n)
  {
    var x := c * 100000000 - c' * p;
    assert x * n == 100000000 * (c * n) - p * (c' * n);
    assert (2 * p - x) * n >= 0 && (x + 2 * p) * n >= 0;
  }

  lemma Absorb26(E: real, E': real, y: int, y': int, c: int, c': int, n: int)
    requires E' * 67108864.0 <= E * 100000000.0 + 154742504910672534362390528.0
    requires E * 100000000.0 <= E' * 67108864.0 + 154742504910672534362390528.0
    requires -134217728 * n <= 100000000 * y - 67108864 * y' <= 134217728 * n
    requires 0 <= n <= 86 && c >= 0x8000_0000_0000_0000 && c' >= 0x8000_0000_0000_0000
    ensures E <= y as real ==> E' <= (y' + c') as real
    ensures E' <= y' as real ==> E <= (y + c) as real
  {
  }

  lemma Absorb27(E: real, E': real, y: int, y': int, c: int, c': int, n: int)
    requires E' * 134217728.0 <= E * 100000000.0 + 309485009821345068724781056.0
    requires E * 100000000.0 <= E' * 134217728.0 + 309485009821345068724781056.0
    requires -268435456 * n <= 100000000 * y - 134217728 * y' <= 268435456 * n
    requires 0 <= n <= 86 && c >= 0x8000_0000_0000_0000 && c' >= 0x8000_0000_0000_0000
    ensures E <= y as real ==> E' <= (y' + c') as real
    ensures E' <= y' as real ==> E <= (y + c) as real
  {
  }

  lemma ErrorStep26(t: real, w: int, t': real, w': int)
    requires t' * 67108864.0 == t * 100000000.0
    requires -134217728 <= w * 100000000 - w' * 67108864 <= 134217728
    ensures var q := 154742504910672534362390528.0;  // 2 * 2^26 * 2^60
            && WideError(t', w') * 67108864.0 <= WideError(t, w) * 100000000.0 + q
            && WideError(t, w) * 100000000.0 <= WideError(t', w') * 67108864.0 + q
  {
  }

  lemma ErrorStep27(t: real, w: int, t': real, w': int)
    requires t' * 134217728.0 == t * 100000000.0
    requires -268435456 <= w * 100000000 - w' * 134217728 <= 268435456
    ensures var q := 309485009821345068724781056.0;
            && WideError(t', w') * 134217728.0 <= WideError(t, w) * 100000000.0 + q
            && WideError(t, w) * 100000000.0 <= WideError(t', w') * 134217728.0 + q
  {
  }

  /** The exact significand of entry i is within half a unit of the stored one. */
  ghost predicate HalfUlp(i: nat, t: real)
    requires i < NPOWERS
  {
    && IsTen(t, PowerTen(i).exp, DecimalExp(i))
    && AbsR(t - PowerTen(i).frac as real) <= 0.5
  }

  /** t' is the significand one row above t. */
  ghost predicate Adjacent(i: nat, t: real, t': real)
    requires i + 1 < NPOWERS
  {
    Times(t', BinadeFactor(Binades(i)) as real) == Times(t, 100000000.0)
  }

  lemma ExactBetween(i: nat, t: real, t': real)
    requires i + 1 < NPOWERS && Adjacent(i, t, t')
    ensures IsTen(t, PowerTen(i).exp, DecimalExp(i)) <==> IsTen(t', PowerTen(i + 1).exp, DecimalExp(i + 1))
  {
    hide P2, P10, PowerTen, Times;
    EveryRowGood(i);
    var e, e', k, d := PowerTen(i).exp, PowerTen(i + 1).exp, DecimalExp(i), Binades(i);
    assert e' == e + d && DecimalExp(i + 1) == k + 8;
    IsTenStep(t, e, k, d, t', P2(e), P10(k), P2(e'), P10(k + 8));
  }

  lemma NearBetween(i: nat, t: real, t': real, n: nat)
    requires i + 1 < NPOWERS && n <= 86 && Adjacent(i, t, t')
    ensures Near(t, Wide(i), PowerTen(i).frac, n) ==> Near(t', Wide(i + 1), PowerTen(i + 1).frac, n + 1)
    ensures Near(t', Wide(i + 1), PowerTen(i + 1).frac, n) ==> Near(t, Wide(i), PowerTen(i).frac, n + 1)
  {
    hide PowerTen, Tail;
    EveryRowGood(i);
    EveryRowGood(i + 1);
    NearStep(t, Wide(i), PowerTen(i).frac, t', Wide(i + 1), PowerTen(i + 1).frac, Binades(i), n);
  }

  /** Entry 45 is 10^12 exactly. */
  lemma ExactEntry()
    ensures IsTen(16777216000000000000.0, -24, 12)
  {
    assert P10(12) == 1000000000000.0 by {
      P10Nat(12);
      TensIsPow10(7);
    }
    assert P2(24) == 16777216.0 by {
      P2Nat(24);
      Pow2Add(12, 12);
      assert Pow2(12) == 4096;
    }
    P2Product(24, -24, 1.0, 16777216.0, P2(-24));
  }

  ghost predicate SharpAt(i: nat, t: real, n: nat)
    requires i < NPOWERS
  {
    && IsTen(t, PowerTen(i).exp, DecimalExp(i))
    && Near(t, Wide(i), PowerTen(i).frac, n)
  }

  /** Outward from the exact entry, the error grows by one unit per row. */
  lemma {:induction false} SharpFrom45(i: nat) returns (t: real)
    requires i < NPOWERS
    ensures SharpAt(i, t, if i < 45 then 45 - i else i - 45)
    decreases if i < 45 then 45 - i else i - 45
  {
    hide P2, P10, PowerTen, Tail, Near, IsTen;
    if i == 45 {
      t := Base45();
    } else if i > 45 {
      var s := SharpFrom45(i - 1);
      t := s * 100000000.0 / BinadeFactor(Binades(i - 1)) as real;
      ExactBetween(i - 1, s, t);
      NearBetween(i - 1, s, t, i - 46);
    } else {
      var s := SharpFrom45(i + 1);
      t := s * BinadeFactor(Binades(i)) as real / 100000000.0;
      ExactBetween(i, t, s);
      NearBetween(i, t, s, 44 - i);
    }
  }

  lemma Base45() returns (t: real)
    ensures SharpAt(45, t, 0)
  {
    t := 16777216000000000000.0;
    assert PowerTen(45) == Fp(16777216000000000000, -24) && Tail(45) == 0;
    ExactEntry();
  }

  lemma HalfUlpOf(t: real, wide: int, c: u64, tail: int, n: nat)
    requires Near(t, wide, c, n) && n <= 45 && wide == c * 18446744073709551616 + tail
    requires -0x7FFF_0000_0000_0000 <= tail <= 0x7FFF_0000_0000_0000
    ensures AbsR(t - c as real) <= 0.5
  {
    assert c * n <= c * 45;
  }

  /** Every cached power is the power of ten correctly rounded to 64 bits. */
  lemma TableIsAccurate(i: nat) returns (t: real)
    requires i < NPOWERS
    ensures HalfUlp(i, t)
  {
    hide PowerTen, Tail, IsTen, Near;
    t := SharpFrom45(i);
    EveryRowGood(i);
    HalfUlpOf(t, Wide(i), PowerTen(i).frac, Tail(i), if i < 45 then 45 - i else i - 45);
  }
}
