/** What bit patterns and texts mean, said without the printer: the number a double stands for, and the number a decimal
    text stands for.  A text is read from its characters alone. */
module FpReader {
  import opened Bytes
  import opened FpBase
  import opened FpReal
  import opened FpDouble
  import opened FpGrisu
  import opened FpReadBack
  import Dec = Decimal

  // ---- doubles ------------------------------------------------------------------------------------

  predicate IsFiniteDouble(bits: u64) { (bits / 0x10_0000_0000_0000) % 2048 != 2047 }

  /** The number a finite bit pattern stands for (section 3.4 of IEEE 754). */
  ghost function DoubleValue(bits: u64): real {
    var e, f := (bits / 0x10_0000_0000_0000) % 2048, bits % 0x10_0000_0000_0000;
    var magnitude := if e == 0 then f as real * P2(-1074) else (1.0 + f as real / 4503599627370496.0) * P2(e - 1023);
    if bits / 0x8000_0000_0000_0000 == 1 then -magnitude else magnitude
  }

  /** No other finite double is as close to x. */
  ghost predicate NearestTo(bits: u64, x: real) {
    forall other: u64 :: IsFiniteDouble(other) && DoubleValue(other) != DoubleValue(bits) ==>
      AbsR(x - DoubleValue(bits)) < AbsR(x - DoubleValue(other))
  }

  lemma DoubleIsBuilt(bits: u64)
    requires IsFiniteDouble(bits)
    ensures IsFinite(BuildFp(bits))
    ensures DoubleValue(bits) == Signed(bits / 0x8000_0000_0000_0000 == 1, BuildFp(bits))
  {
    hide P2;
    var e, f := ExponentField(bits), FractionField(bits);
    if e != 0 {
      HiddenBit(f, e);
    }
  }

  lemma HiddenBit(f: int, e: int)
    ensures (1.0 + f as real / 4503599627370496.0) * P2(e - 1023) == ValueOf(f + HIDDEN, e - 1075)
  {
    P2Nat(52);
    Pow2Fifty2();
    P2Product(e - 1075, 52, P2(e - 1023), P2(e - 1075), P2(52));
    hide P2;
    var p, x := P2(e - 1075), f as real;
    assert (f + HIDDEN) as real == x + 4503599627370496.0;
    assert (1.0 + x / 4503599627370496.0) * (p * 4503599627370496.0) == (x + 4503599627370496.0) * p by {
      assert (1.0 + x / 4503599627370496.0) * 4503599627370496.0 == x + 4503599627370496.0;
    }
  }

  /** A magnitude strictly between the halfway points, with the sign of the double, is nearest to the double. */
  lemma SignedReadsBack(bits: u64, x: real)
    requires FiniteNonZero(bits) && LowerMid(BuildFp(bits)) < x < UpperMid(BuildFp(bits))
    ensures NearestTo(bits, if bits / 0x8000_0000_0000_0000 == 1 then -x else x)
  {
    hide DoubleValue, LowerMid, UpperMid, BuildFp;
    DoubleIsBuilt(bits);
    forall other: u64 | IsFiniteDouble(other) && DoubleValue(other) != DoubleValue(bits)
      ensures AbsR((if bits / 0x8000_0000_0000_0000 == 1 then -x else x) - DoubleValue(bits)) <
              AbsR((if bits / 0x8000_0000_0000_0000 == 1 then -x else x) - DoubleValue(other))
    {
      DoubleIsBuilt(other);
      var same := bits / 0x8000_0000_0000_0000 == other / 0x8000_0000_0000_0000;
      ReadsBack(BuildFp(bits), x, BuildFp(other), !same);
    }
  }

  lemma ZeroIsNearest(bits: u64)
    requires ExponentField(bits) == 0 && FractionField(bits) == 0
    ensures NearestTo(bits, 0.0) && DoubleValue(bits) == 0.0
  {
  }

  // ---- texts --------------------------------------------------------------------------------------

  /** Where a character first occurs; the length if it does not. */
  function Find(s: Str, c: char): (i: nat)
    ensures i <= |s| && (i < |s| ==> s[i] == c as int) && forall j :: 0 <= j < i ==> s[j] != c as int
  {
    if s == [] || s[0] == c as int then 0 else 1 + Find(s[1..], c)
  }

  /** A sign and digits. */
  function ReadExponent(s: Str): Option<int> {
    if |s| < 2 || !Dec.AllDigits(s[1..]) then None
    else if s[0] == '+' as int then Some(Dec.Val(s[1..]))
    else if s[0] == '-' as int then Some(-Dec.Val(s[1..]))
    else None
  }

  /** Digits, perhaps a point and more digits. */
  ghost function ReadMantissa(m: Str, exponent: int): Option<real> {
    var p := Find(m, '.');
    var whole, fraction := m[..p], if p == |m| then [] else m[p + 1..];
    if whole == [] || !Dec.AllDigits(whole + fraction) then None
    else Some(Decimal(Dec.Val(whole + fraction), exponent - |fraction|))
  }

  /** The same, perhaps with an `e` and an exponent behind it. */
  ghost function ReadUnsigned(s: Str): Option<real> {
    var e := Find(s, 'e');
    var exponent := if e == |s| then Some(0) else ReadExponent(s[e + 1..]);
    if exponent.None? then None else ReadMantissa(s[..e], exponent.value)
  }

  ghost function Read(text: Str): Option<real> {
    if text != [] && text[0] == '-' as int then
      var x := ReadUnsigned(text[1..]);
      if x.None? then None else Some(-x.value)
    else ReadUnsigned(text)
  }

  lemma FindBehind(m: Str, t: Str, c: char)
    requires c as int !in m && (t != [] ==> t[0] == c as int)
    ensures Find(m + t, c) == |m|
  {
    var s := m + t;
    assert forall i :: 0 <= i < |m| ==> s[i] == m[i];
    assert t != [] ==> s[|m|] == t[0];
  }

  lemma ReadScientific(m: Str, t: Str, exponent: int)
    requires 'e' as int !in m && (t != [] ==> t[0] == 'e' as int)
    requires if t == [] then exponent == 0 else ReadExponent(t[1..]) == Some(exponent)
    ensures ReadUnsigned(m + t) == ReadMantissa(m, exponent)
  {
    hide ReadMantissa, ReadExponent, Find;
    FindBehind(m, t, 'e');
    assert (m + t)[..|m|] == m;
    assert t != [] ==> (m + t)[|m| + 1..] == t[1..];
  }

  const POINT: byte := '.' as int

  /** A mantissa, from its digits. */
  function Pointed(whole: Str, fraction: Str): Str {
    if fraction == [] then whole else whole + ([POINT] + fraction)
  }

  lemma NotADigit(s: Str)
    requires Dec.AllDigits(s)
    ensures '.' as int !in s && 'e' as int !in s && '-' as int !in s
  {
  }

  lemma PointedPlain(whole: Str, fraction: Str)
    requires whole != [] && Dec.AllDigits(whole) && Dec.AllDigits(fraction)
    ensures 'e' as int !in Pointed(whole, fraction) && Pointed(whole, fraction)[0] != '-' as int
  {
    NotADigit(whole);
    NotADigit(fraction);
  }

  lemma ReadPointed(whole: Str, fraction: Str, exponent: int)
    requires whole != [] && Dec.AllDigits(whole) && Dec.AllDigits(whole + fraction)
    ensures ReadMantissa(Pointed(whole, fraction), exponent) ==
            Some(Decimal(Dec.Val(whole + fraction), exponent - |fraction|))
  {
    NotADigit(whole);
    var t := if fraction == [] then [] else [POINT] + fraction;
    FindBehind(whole, t, '.');
    hide Dec.AllDigits, Dec.Val, Decimal, Find;
    var m := Pointed(whole, fraction);
    if fraction == [] {
      assert whole + t == m && m[..|whole|] == whole && whole + fraction == whole;
    } else {
      assert m[..|whole|] == whole && m[|whole| + 1..] == fraction;
    }
  }
}
