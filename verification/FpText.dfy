/** The text of a double (emit_digits, filter_special and fpconv_dtoa, fpconv/fpconv_dtoa.c:249-373). */
module FpText {
  import opened Bytes
  import opened FpBase
  import opened FpReal
  import opened FpDouble
  import opened FpGrisu
  import opened FpReader
  import Dec = Decimal

  const MINUS: byte := '-' as int
  const PLUS: byte := '+' as int
  const E: byte := 'e' as int

  /** The size of the caller's buffer (include/redis_string_num.h:255). */
  const BUFFER := 24

  function Glyphs(ds: seq<int>): (s: Str)
    requires IsDigits(ds)
    ensures |s| == |ds|
  {
    if ds == [] then [] else [48 + ds[0]] + Glyphs(ds[1..])
  }

  function Zeros(n: nat): (ds: seq<int>)
    ensures |ds| == n && IsDigits(ds)
  {
    seq(n, _ => 0)
  }

  // ---- what a numeral says ------------------------------------------------------------------------

  /** Digits, perhaps a fraction, perhaps a power of ten. */
  datatype Numeral = Numeral(whole: seq<int>, fraction: seq<int>, exponent: Option<int>) {
    ghost predicate Valid() { whole != [] && IsDigits(whole) && IsDigits(fraction) }

    ghost function Spelling(): Str
      requires Valid()
    {
      Glyphs(whole)
      + (if fraction == [] then [] else [POINT] + Glyphs(fraction))
      + (if exponent.None? then []
         else [E, if exponent.value < 0 then MINUS else PLUS] + Dec.Digits(Dec.Mag(exponent.value)))
    }

    /** All the digits read as one integer, and the power of ten that goes with it. */
    ghost function Number(): real {
      Decimal(Value(whole + fraction), (if exponent.None? then 0 else exponent.value) - |fraction|)
    }
  }

  lemma {:induction false} ValueZeros(ds: seq<int>, n: nat)
    ensures Value(ds + Zeros(n)) == Value(ds) * Pow10(n)
  {
    if n == 0 {
      assert ds + Zeros(0) == ds;
    } else {
      ValueZeros(ds, n - 1);
      assert ds + Zeros(n) == (ds + Zeros(n - 1)) + [0];
      ValueSnoc(ds + Zeros(n - 1), 0);
      TenTimes(Value(ds), Pow10(n - 1));
    }
  }

  lemma {:induction false} LeadingZeros(n: nat, ds: seq<int>)
    ensures Value(Zeros(n) + ds) == Value(ds)
    decreases |ds|, n
  {
    if ds != [] {
      var last := |ds| - 1;
      LeadingZeros(n, ds[..last]);
      assert (Zeros(n) + ds)[..n + last] == Zeros(n) + ds[..last];
    } else if n > 0 {
      LeadingZeros(n - 1, ds);
      assert Zeros(n) + ds == Zeros(n) && Zeros(n)[..n - 1] == Zeros(n - 1) && Zeros(n - 1) + ds == Zeros(n - 1);
    }
  }

  lemma Shifted(v: int, n: nat)
    ensures Decimal(v * Pow10(n), 0) == Decimal(v, n)
  {
    P10Nat(n);
    assert (v * Pow10(n)) as real == v as real * Pow10(n) as real;
  }

  lemma GlyphsHead(ds: seq<int>)
    requires ds != [] && IsDigits(ds)
    ensures Glyphs(ds) == [48 + ds[0]] + Glyphs(ds[1..])
  {
  }

  lemma {:induction false} GlyphsConcat(a: seq<int>, b: seq<int>)
    requires IsDigits(a) && IsDigits(b)
    ensures Glyphs(a + b) == Glyphs(a) + Glyphs(b)
  {
    if a == [] {
      assert a + b == b;
    } else {
      GlyphsConcat(a[1..], b);
      GlyphsHead(a);
      GlyphsHead(a + b);
      hide Glyphs;
      assert (a + b)[1..] == a[1..] + b;
      assert [48 + a[0]] + (Glyphs(a[1..]) + Glyphs(b)) == ([48 + a[0]] + Glyphs(a[1..])) + Glyphs(b);
    }
  }

  // ---- a numeral reads as its number ------------------------------------------------------------

  lemma {:induction false} GlyphsRead(ds: seq<int>)
    requires IsDigits(ds)
    ensures Dec.AllDigits(Glyphs(ds)) && Dec.Val(Glyphs(ds)) == Value(ds)
  {
    if ds != [] {
      var init, last := ds[..|ds| - 1], ds[|ds| - 1];
      GlyphsRead(init);
      assert ds == init + [last];
      GlyphsConcat(init, [last]);
      OneGlyph([last]);
      assert [last][..1] == [last];
      assert Glyphs(ds)[..|ds| - 1] == Glyphs(init);
    }
  }

  ghost function Tail(n: Numeral): Str {
    if n.exponent.None? then []
    else [E, if n.exponent.value < 0 then MINUS else PLUS] + Dec.Digits(Dec.Mag(n.exponent.value))
  }

  lemma TailReads(n: Numeral)
    ensures n.exponent.Some? ==> ReadExponent(Tail(n)[1..]) == n.exponent
  {
    if n.exponent.Some? {
      var m := Dec.Mag(n.exponent.value);
      Dec.DigitsShape(m);
      hide Dec.Digits, Dec.Val;
      assert Tail(n)[1..][1..] == Dec.Digits(m);
    }
  }

  lemma MantissaReads(n: Numeral, exponent: int)
    requires n.Valid()
    ensures var m := Pointed(Glyphs(n.whole), Glyphs(n.fraction));
      && ReadMantissa(m, exponent) == Some(Decimal(Value(n.whole + n.fraction), exponent - |n.fraction|))
      && m != [] && m[0] != MINUS && E !in m
  {
    GlyphsRead(n.whole);
    GlyphsRead(n.fraction);
    GlyphsRead(n.whole + n.fraction);
    GlyphsConcat(n.whole, n.fraction);
    hide Glyphs, Dec.Val, Dec.AllDigits, Value, Decimal, Pointed, ReadMantissa;
    ReadPointed(Glyphs(n.whole), Glyphs(n.fraction), exponent);
    PointedPlain(Glyphs(n.whole), Glyphs(n.fraction));
  }

  lemma SpellingParts(n: Numeral)
    requires n.Valid()
    ensures n.Spelling() == Pointed(Glyphs(n.whole), Glyphs(n.fraction)) + Tail(n)
  {
    hide Glyphs, Dec.Digits;
  }

  lemma NumeralReads(n: Numeral)
    requires n.Valid()
    ensures ReadUnsigned(n.Spelling()) == Some(n.Number()) && n.Spelling()[0] != MINUS
  {
    var exponent := if n.exponent.None? then 0 else n.exponent.value;
    TailReads(n);
    assert Tail(n) != [] ==> Tail(n)[0] == E;
    assert Tail(n) == [] <==> n.exponent.None?;
    hide Glyphs, Tail, Dec.Digits, Value, Decimal, ReadMantissa, ReadUnsigned, ReadExponent, Pointed, Numeral.Spelling;
    MantissaReads(n, exponent);
    SpellingParts(n);
    ReadScientific(Pointed(Glyphs(n.whole), Glyphs(n.fraction)), Tail(n), exponent);
  }

  // ---- emit_digits --------------------------------------------------------------------------------

  /** The text spells a number equal to Value(digits) * 10^k. With the sign counted it outgrows the
      24-byte buffer in exactly one case.  An exponent is written for more than seven zeros behind the digits, and for
      more than six decimal places unless the first digit is within three places of the point; then one digit stands
      before the point. */
  method EmitDigits(digits: seq<int>, k: int, neg: bool) returns (text: Str, ghost n: Numeral)
    requires 1 <= |digits| <= 17 && IsDigits(digits) && -900 <= k <= 900
    ensures n.Valid() && text == n.Spelling() && n.Number() == Decimal(Value(digits), k)
    ensures |text| <= 24
    ensures |text| + (if neg then 1 else 0) > BUFFER <==> neg && |digits| == 17 && k == 7
    ensures n.exponent.None? <==> -7 < k <= 7 || (k < 0 && -4 < k + |digits| - 1 < 4)
    ensures n.exponent.None? ==> |n.fraction| == (if k < 0 then -k else 0) && (|digits| + k <= 0 ==> |n.whole| == 1)
    ensures n.exponent.Some? ==> |n.whole| == 1 && |n.fraction| == |digits| - 1
  {
    hide Value, Decimal, Glyphs, IsDigits, Numeral.Valid, Numeral.Spelling, Numeral.Number;
    var exp := if k + |digits| - 1 < 0 then -(k + |digits| - 1) else k + |digits| - 1;
    if k >= 0 && exp < |digits| + 7 {
      text, n := EmitPlain(digits, k);
    } else if k < 0 && (k > -7 || exp < 4) {
      text, n := EmitFraction(digits, k);
    } else {
      var ndigits := if |digits| < 18 - (if neg then 1 else 0) then |digits| else 18 - if neg then 1 else 0;
      text, n := EmitScientific(digits, k, ndigits, exp);
    }
  }

  method EmitPlain(digits: seq<int>, k: nat) returns (text: Str, ghost n: Numeral)
    requires digits != [] && IsDigits(digits)
    ensures n.Valid() && text == n.Spelling() && n.Number() == Decimal(Value(digits), k)
    ensures |text| == |digits| + k && n.exponent.None? && n.fraction == []
  {
    hide Value, Decimal, Glyphs;
    text := Glyphs(digits) + Glyphs(Zeros(k));
    n := Numeral(digits + Zeros(k), [], None);
    WholeNumber(digits, k);
    assert n.whole + n.fraction == n.whole;
    assert text + [] + [] == text;
  }

  method EmitFraction(digits: seq<int>, k: int) returns (text: Str, ghost n: Numeral)
    requires digits != [] && IsDigits(digits) && k < 0
    ensures n.Valid() && text == n.Spelling() && n.Number() == Decimal(Value(digits), k)
    ensures |text| == if |digits| + k <= 0 then 2 - k else |digits| + 1
    ensures n.exponent.None? && |n.fraction| == -k && (|digits| + k <= 0 ==> |n.whole| == 1)
  {
    hide Value, Decimal, Glyphs;
    var offset := |digits| + k;
    if offset <= 0 {
      text := [48, POINT] + (Glyphs(Zeros(-offset)) + Glyphs(digits));
      n := Numeral([0], Zeros(-offset) + digits, None);
      BelowOne(digits, -offset);
      assert text == Glyphs([0]) + ([POINT] + Glyphs(n.fraction)) + [];
    } else {
      text := Glyphs(digits[..offset]) + ([POINT] + Glyphs(digits[offset..]));
      n := Numeral(digits[..offset], digits[offset..], None);
      assert n.whole + n.fraction == digits;
      assert text + [] == text;
    }
  }

  method EmitScientific(digits: seq<int>, k: int, ndigits: nat, exp: nat) returns (text: Str, ghost n: Numeral)
    requires digits != [] && IsDigits(digits) && ndigits == |digits|
    requires exp == (if k + |digits| - 1 < 0 then -(k + |digits| - 1) else k + |digits| - 1) < 1000
    ensures n.Valid() && text == n.Spelling() && n.Number() == Decimal(Value(digits), k)
    ensures |text| <= |digits| + 6 && n.exponent.Some? && |n.whole| == 1 && |n.fraction| == |digits| - 1
  {
    hide Value, Decimal, Glyphs, Dec.Digits;
    n := Numeral(digits[..1], digits[1..ndigits], Some(k + ndigits - 1));
    assert n.whole + n.fraction == digits;
    OneGlyph(digits);
    text := [48 + digits[0]];
    if ndigits > 1 {
      text := text + ([POINT] + Glyphs(digits[1..ndigits]));
    }
    ghost var mantissa := text;
    var sign := if k + ndigits - 1 < 0 then MINUS else PLUS;
    text := text + [E, sign];
    var tail := EmitExponent(exp);
    text := text + tail;
    assert text == mantissa + ([E, sign] + tail);
    assert mantissa + [] == mantissa;
  }

  lemma WholeNumber(digits: seq<int>, k: nat)
    requires IsDigits(digits)
    ensures Glyphs(digits + Zeros(k)) == Glyphs(digits) + Glyphs(Zeros(k))
    ensures Decimal(Value(digits + Zeros(k)), 0) == Decimal(Value(digits), k)
  {
    hide Decimal;
    GlyphsConcat(digits, Zeros(k));
    ValueZeros(digits, k);
    Shifted(Value(digits), k);
  }

  lemma BelowOne(digits: seq<int>, n: nat)
    requires IsDigits(digits)
    ensures Value([0] + (Zeros(n) + digits)) == Value(digits)
    ensures Glyphs([0]) == [48] && Glyphs(Zeros(n) + digits) == Glyphs(Zeros(n)) + Glyphs(digits)
  {
    LeadingZeros(n + 1, digits);
    assert [0] + (Zeros(n) + digits) == Zeros(n + 1) + digits;
    GlyphsConcat(Zeros(n), digits);
    assert Glyphs([0]) == [48] + [];
  }

  lemma OneGlyph(digits: seq<int>)
    requires digits != [] && IsDigits(digits)
    ensures Glyphs(digits[..1]) == [48 + digits[0]]
  {
    assert digits[..1][1..] == [];
  }

  lemma ThreeDigits(c: nat, d: nat, u: nat)
    requires c <= 9 && d <= 9 && u <= 9
    ensures c > 0 ==> Dec.Digits(100 * c + 10 * d + u) == [48 + c, 48 + d, 48 + u]
    ensures d > 0 ==> Dec.Digits(10 * d + u) == [48 + d, 48 + u]
    ensures Dec.Digits(u) == [48 + u]
  {
    var ten := 10 * c + d;
    assert (10 * ten + u) / 10 == ten && (10 * ten + u) % 10 == u;
    assert ten / 10 == c && ten % 10 == d;
    if c > 0 {
      assert Dec.Digits(c) == [48 + c];
      assert Dec.Digits(ten) == Dec.Digits(c) + [48 + d];
      assert Dec.Digits(10 * ten + u) == Dec.Digits(ten) + [48 + u];
    }
  }

  /** The exponent without leading zeros. */
  method EmitExponent(exp0: nat) returns (text: Str)
    requires exp0 < 1000
    ensures text == Dec.Digits(exp0) && |text| <= 3
  {
    hide Dec.Digits;
    text := [];
    var exp: int, cent: int, dec: int := exp0, 0, 0;
    if exp > 99 {
      cent := exp / 100;
      text := text + [cent + 48];
      exp := exp - cent * 100;
    }
    if exp > 9 {
      dec := exp / 10;
      text := text + [dec + 48];
      exp := exp - dec * 10;
    } else if cent != 0 {
      text := text + [48];
    }
    assert exp % 10 == exp;
    text := text + [exp % 10 + 48];
    ThreeDigits(cent, dec, exp);
  }

  // ---- fpconv_dtoa --------------------------------------------------------------------------------

  predicate IsNegative(bits: u64) { bits >= 0x8000_0000_0000_0000 }

  function Sign(bits: u64): Str { if IsNegative(bits) then [MINUS] else [] }

  /** The spelling, after the sign, of a number that only this double is nearest to. */
  ghost predicate Identifies(bits: u64, body: Str) {
    exists n: Numeral :: n.Valid() && body == n.Spelling() &&
      LowerMid(BuildFp(bits)) < n.Number() < UpperMid(BuildFp(bits))
  }

  /** The double may round from a decimal between 10^23 and 10^24. */
  ghost predicate InBand(fp: Fp) { P10(23) < UpperMid(fp) && LowerMid(fp) < P10(24) }

  /** Negative, in the band, and no multiple of 10^8 to write: 17 digits and seven zeros are left. */
  ghost predicate IsLong(bits: u64, slack: real) {
    FiniteNonZero(bits) && IsNegative(bits) && InBand(BuildFp(bits)) && NoneInside(BuildFp(bits), 8, slack)
  }

  /** The text starts with a minus sign exactly when the sign bit is set.  Infinities and NaNs have fixed texts; any
      other text, read character by character, gives a number to which no other finite double is as close.
      The text is too long for the buffer, by one character, exactly when the double is negative, in the band, and
      no multiple of 10^8 lies between its halfway points; only a multiple within the slack of one of them leaves
      it open. */
  method FpconvDtoa(bits: u64) returns (text: Str)
    ensures 0 < |text| <= BUFFER + 1
    ensures text[0] == '-' as int <==> bits / 0x8000_0000_0000_0000 == 1
    ensures IsFiniteDouble(bits) ==> Read(text).Some? && NearestTo(bits, Read(text).value)
    ensures var body := if bits / 0x8000_0000_0000_0000 == 1 then text[1..] else text;
      if FiniteNonZero(bits) then Identifies(bits, body)
      else if ExponentField(bits) == 0 then body == ['0' as int]
      else if FractionField(bits) != 0 then body == ['n' as int, 'a' as int, 'n' as int]
      else body == ['i' as int, 'n' as int, 'f' as int]
    ensures |text| > BUFFER ==> IsLong(bits, Slack(BuildFp(bits)))
    ensures IsLong(bits, 0.0) ==> |text| > BUFFER
  {
    hide LowerMid, UpperMid, BuildFp, InBand, NoneInside, Slack, Decimal, Value, Read, NearestTo;
    var sign := Sign(bits);
    var body;
    if ExponentField(bits) == 0 && FractionField(bits) == 0 {
      body := [48];
      ZeroReadsBack(bits);
    } else if ExponentField(bits) == 2047 {
      body := if FractionField(bits) != 0 then [110, 97, 110] else [105, 110, 102];
    } else {
      var digits, k := Grisu2(bits);
      ghost var n;
      body, n := EmitDigits(digits, k, IsNegative(bits));
      assert Identifies(bits, body);
      TextReadsBack(bits, body);
      LongestText(BuildFp(bits), digits, k);
    }
    text := sign + body;
    assert IsNegative(bits) ==> text[1..] == body;
  }

  /** Read with its sign, a text that identifies a double is closer to it than to any other finite double. */
  lemma TextReadsBack(bits: u64, body: Str)
    requires FiniteNonZero(bits) && Identifies(bits, body)
    ensures body != [] && body[0] != MINUS
    ensures Read(Sign(bits) + body).Some? && NearestTo(bits, Read(Sign(bits) + body).value)
  {
    var n: Numeral :| n.Valid() && body == n.Spelling() &&
      LowerMid(BuildFp(bits)) < n.Number() < UpperMid(BuildFp(bits));
    NumeralReads(n);
    hide NearestTo, ReadUnsigned, LowerMid, UpperMid, Numeral.Spelling, Numeral.Number;
    SignedReadsBack(bits, n.Number());
    assert IsNegative(bits) ==> (Sign(bits) + body)[1..] == body;
    assert !IsNegative(bits) ==> Sign(bits) + body == body;
  }

  lemma ZeroReadsBack(bits: u64)
    requires ExponentField(bits) == 0 && FractionField(bits) == 0
    ensures Read(Sign(bits) + [48]).Some? && NearestTo(bits, Read(Sign(bits) + [48]).value)
  {
    var n := Numeral([0], [], None);
    NumeralReads(n);
    assert [0] + [] == [0] && Value([0]) == 0;
    assert n.Spelling() == [48] && n.Number() == 0.0;
    ZeroIsNearest(bits);
    assert IsNegative(bits) ==> (Sign(bits) + [48])[1..] == [48];
    assert !IsNegative(bits) ==> Sign(bits) + [48] == [48];
  }

  // ---- the 24-byte buffer -------------------------------------------------------------------------

  lemma {:induction false} P10Monotone(a: int, b: int)
    requires a <= b
    ensures P10(a) <= P10(b)
    decreases b - a
  {
    if a < b {
      P10Monotone(a, b - 1);
      P10Step(b - 1);
    }
  }

  lemma DecimalBelow(v: int, n: nat, k: int)
    requires v < Pow10(n)
    ensures Decimal(v, k) < P10(n + k)
  {
    P10Nat(n);
    P10Product(n, k, P10(n + k), P10(n), P10(k));
    assert Times(v as real, P10(k)) < P10(n) * P10(k);
  }

  lemma DecimalAtLeast(v: int, n: nat, k: int)
    requires v >= Pow10(n)
    ensures Decimal(v, k) >= P10(n + k)
  {
    P10Nat(n);
    P10Product(n, k, P10(n + k), P10(n), P10(k));
    assert Times(v as real, P10(k)) >= P10(n) * P10(k);
  }

  lemma Rescaled(v: int, n: nat, k: int)
    ensures Decimal(v * Pow10(n), k) == Decimal(v, n + k)
  {
    P10Nat(n);
    P10Product(n, k, P10(n + k), P10(n), P10(k));
    var p: int, x, y := Pow10(n), v as real, P10(k);
    assert (v * p) as real == x * p as real;
    assert (x * p as real) * y == x * (p as real * y);
  }

  /** Seventeen digits times 10^7 lie in the band. */
  lemma LongestInBand(fp: Fp, digits: seq<int>)
    requires |digits| == 17 && IsDigits(digits) && digits[0] > 0
    requires LowerMid(fp) < Decimal(Value(digits), 7) < UpperMid(fp)
    ensures InBand(fp)
  {
    hide Value, Decimal, P10, Pow10, LowerMid, UpperMid;
    ValueLowerBound(digits);
    ValueUpperBound(digits);
    DecimalAtLeast(Value(digits), 16, 7);
    DecimalBelow(Value(digits), 17, 7);
  }

  /** In the band, with no multiple of 10^8 to choose, only seventeen digits times 10^7 are left. */
  lemma BandForcesLongest(fp: Fp, digits: seq<int>, k: int)
    requires 1 <= |digits| <= 17 && IsDigits(digits)
    requires LowerMid(fp) < Decimal(Value(digits), k) < UpperMid(fp)
    requires InBand(fp) && NoneInside(fp, 8, 0.0)
    ensures |digits| == 17 && k == 7
  {
    hide Value, Decimal, P10, Pow10, LowerMid, UpperMid;
    ghost var v := Value(digits);
    if k >= 8 {
      Rescaled(v, k - 8, 8);
    }
    Rescaled(1, 15, 8);
    UnitIsPower(23);
    assert P10(23) == Decimal(Pow10(15), 8) <= LowerMid(fp);
    ValueUpperBound(digits);
    DecimalBelow(v, |digits|, k);
    if |digits| + k <= 23 {
      P10Monotone(|digits| + k, 23);
    }
  }

  lemma UnitIsPower(k: int)
    ensures Decimal(1, k) == P10(k)
  {
  }

  lemma LongestText(fp: Fp, digits: seq<int>, k: int)
    requires 1 <= |digits| <= 17 && IsDigits(digits) && digits[0] > 0
    requires LowerMid(fp) < Decimal(Value(digits), k) < UpperMid(fp)
    ensures |digits| == 17 && k == 7 ==> InBand(fp)
    ensures InBand(fp) && NoneInside(fp, 8, 0.0) ==> |digits| == 17 && k == 7
  {
    hide *;
    if |digits| == 17 && k == 7 {
      LongestInBand(fp, digits);
    }
    if InBand(fp) && NoneInside(fp, 8, 0.0) {
      BandForcesLongest(fp, digits, k);
    }
  }

  /** -1.2345678901234567e23. */
  const LONG_BITS: u64 := 0xC4BA_249B_1F10_A06C

  /** A finite double whose text, -123456789012345670000000, is one character longer than the buffer. */
  lemma LongTextWitness()
    ensures IsLong(LONG_BITS, 0.0)
  {
    hide Decimal, P10, P2;
    var fp := BuildFp(LONG_BITS);
    assert fp == Fp(7358598054191212, 24);
    EightMillions();
    BandEnds();
    assert LowerMid(fp) == 123456789012345660637184.0;
    assert UpperMid(fp) == 123456789012345677414400.0;
    forall m: int
      ensures !Inside(fp, Decimal(m, 8), 0.0)
    {
      HundredMillions(m);
    }
  }

  lemma EightMillions()
    ensures P2(23) == 8388608.0
  {
    P2Nat(23);
    Pow2Add(12, 11);
    assert Pow2(12) == 4096 && Pow2(11) == 2048;
  }

  lemma BandEnds()
    ensures P10(23) == 100000000000000000000000.0 && P10(24) == 1000000000000000000000000.0
  {
    assert P10(8) == 100000000.0;
    P10Product(8, 8, P10(16), P10(8), P10(8));
    assert P10(7) == 10000000.0;
    P10Product(16, 7, P10(23), P10(16), P10(7));
    P10Step(23);
  }

  lemma HundredMillions(m: int)
    ensures Decimal(m, 8) == (m * 100000000) as real
  {
    P10Nat(8);
    assert Pow10(8) == 100000000;
  }
}
