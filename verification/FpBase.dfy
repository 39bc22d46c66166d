/** Integer vocabulary of the double printer (fpconv/): 64-bit words, powers, and decimal digit strings. */
module FpBase {

  /** uint64_t.  Every value given this type is proved not to have wrapped. */
  type u64 = x: int | 0 <= x < 0x1_0000_0000_0000_0000

  const TWO32: int := 0x1_0000_0000
  const TWO63: int := 0x8000_0000_0000_0000
  const TWO64: int := 0x1_0000_0000_0000_0000

  /** struct Fp of fpconv_powers.h: the number frac * 2^exp. */
  datatype Fp = Fp(frac: u64, exp: int)

  function Pow2(n: nat): (r: nat)
    ensures r >= 1
  {
    if n == 0 then 1 else 2 * Pow2(n - 1)
  }

  function Pow10(n: nat): (r: nat)
    ensures r >= 1
  {
    if n == 0 then 1 else 10 * Pow10(n - 1)
  }

  lemma {:induction false} Pow2Add(m: nat, n: nat)
    ensures Pow2(m + n) == Pow2(m) * Pow2(n)
  {
    if m > 0 {
      Pow2Add(m - 1, n);
    }
  }

  lemma {:induction false} Pow10Add(m: nat, n: nat)
    ensures Pow10(m + n) == Pow10(m) * Pow10(n)
  {
    if m > 0 {
      Pow10Add(m - 1, n);
    }
  }

  lemma {:induction false} Pow10Monotone(m: nat, n: nat)
    requires m <= n
    ensures Pow10(m) <= Pow10(n)
  {
    if m < n {
      Pow10Monotone(m, n - 1);
    }
  }

  lemma {:induction false} Pow2Monotone(m: nat, n: nat)
    requires m <= n
    ensures Pow2(m) <= Pow2(n)
  {
    if m < n {
      Pow2Monotone(m, n - 1);
    }
  }

  lemma Pow2Literals()
    ensures Pow2(32) == TWO32 && Pow2(60) == 0x1000_0000_0000_0000 && Pow2(63) == TWO63 && Pow2(64) == TWO64
  {
    assert Pow2(4) == 16;
    Pow2Add(4, 4);
    Pow2Add(8, 8);
    Pow2Add(16, 16);
    Pow2Add(28, 32);
    Pow2Add(12, 16);
    Pow2Add(4, 8);
    Pow2Add(60, 4);
  }

  lemma MulMonotone(a: int, b: int, c: int, d: int)
    requires 0 <= a <= b && 0 <= c <= d
    ensures 0 <= a * c <= b * d
  {
    assert a * c <= b * c <= b * d;
  }

  lemma TenTimes(a: int, b: int)
    ensures a * (10 * b) == 10 * (a * b)
  {
  }

  lemma Distribute(a: int, b: int, c: int)
    ensures (a - b) * c == a * c - b * c
    ensures (a + b) * c == a * c + b * c
  {
  }

  lemma ScaleOrder(a: int, b: int, scale: int)
    requires scale > 0
    ensures a <= b ==> a * scale <= b * scale
  {
  }

  /** The table `tens` (fpconv_dtoa.c:54-73). */
  function Tens(i: nat): u64
    requires i < 20
  {
    [10000000000000000000,
     1000000000000000000,
     100000000000000000,
     10000000000000000,
     1000000000000000,
     100000000000000,
     10000000000000,
     1000000000000,
     100000000000,
     10000000000,
     1000000000,
     100000000,
     10000000,
     1000000,
     100000,
     10000,
     1000,
     100,
     10,
     1][i]
  }

  lemma TensIsPow10(i: nat)
    requires i < 20
    ensures Tens(i) == Pow10(19 - i)
  {
    if i >= 10 {
    } else {
      Pow10Add(10, 9 - i);
      assert Pow10(10) == 10000000000;
    }
  }

  // ---- decimal digit strings ----------------------------------------------------------------

  predicate IsDigits(ds: seq<int>) {
    forall i :: 0 <= i < |ds| ==> 0 <= ds[i] <= 9
  }

  function Value(ds: seq<int>): int {
    if ds == [] then 0 else 10 * Value(ds[..|ds| - 1]) + ds[|ds| - 1]
  }

  lemma ValueSnoc(ds: seq<int>, d: int)
    ensures Value(ds + [d]) == 10 * Value(ds) + d
  {
    assert (ds + [d])[..|ds|] == ds;
  }

  /** A digit string that starts with a non-zero digit is at least 10^(n-1). */
  lemma {:induction false} ValueLowerBound(ds: seq<int>)
    requires ds != [] && IsDigits(ds) && ds[0] > 0
    ensures Value(ds) >= Pow10(|ds| - 1)
  {
    var init := ds[..|ds| - 1];
    if init != [] {
      assert init[0] == ds[0];
      ValueLowerBound(init);
    } else {
      assert Value(ds) == ds[0];
    }
  }

  lemma {:induction false} ValueUpperBound(ds: seq<int>)
    requires IsDigits(ds)
    ensures Value(ds) < Pow10(|ds|)
  {
    if ds != [] {
      ValueUpperBound(ds[..|ds| - 1]);
    }
  }
}
