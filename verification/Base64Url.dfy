/** Base64url without padding (include/base64url.h:11-97).  Shifts and masks are written as multiplications,
    divisions and remainders by powers of two; the decoder's accumulator wraps at 32 bits. */
module Base64Url {
  import opened Arithmetic
  import opened Bytes

  /** The alphabet of table 2 in section 5 of RFC 4648. */
  function Letter(code: nat): byte
    requires code < 64
  {
    if code < 26 then 'A' as int + code
    else if code < 52 then 'a' as int + (code - 26)
    else if code < 62 then '0' as int + (code - 52)
    else if code == 62 then '-' as int
    else '_' as int
  }

  function Code(c: byte): int {
    if 65 <= c <= 90 then c - 65
    else if 97 <= c <= 122 then c - 97 + 26
    else if 48 <= c <= 57 then c - 48 + 52
    else if c == 45 then 62
    else if c == 95 then 63
    else -1
  }

  predicate InAlphabet(text: seq<byte>) {
    forall i :: 0 <= i < |text| ==> Code(text[i]) >= 0
  }

  /** The letters read as one number, six bits each. */
  function Sextets(text: seq<byte>): nat
    requires InAlphabet(text)
  {
    if text == [] then 0 else 64 * Sextets(text[..|text| - 1]) + Code(text[|text| - 1])
  }

  /** 2^bits, for the bit counts that occur. */
  function Weight(bits: int): (r: nat)
    ensures r >= 1
  {
    if bits == 0 then 1 else if bits == 2 then 4 else if bits == 4 then 16 else 64
  }

  /** The bit string of the bytes, with zero bits added up to a whole number of sextets (sections 3.2, 3.5 and 5 of
      RFC 4648). */
  ghost predicate IsEncoding(text: seq<byte>, bytes: seq<byte>) {
    && |text| == (8 * |bytes| + 5) / 6
    && InAlphabet(text)
    && Sextets(text) == FromBE(bytes) * Weight(6 * |text| - 8 * |bytes|)
  }

  // ---- a text has one decoding, bytes have one encoding ------------------------------------------

  lemma SameDigit(x: int, c: int, y: int, d: int)
    requires 0 <= c < 64 && 0 <= d < 64 && 64 * x + c == 64 * y + d
    ensures x == y && c == d
  {
  }

  lemma SameLetter(a: byte, b: byte)
    requires Code(a) == Code(b) >= 0
    ensures a == b
  {
  }

  lemma {:induction false} SextetsInjective(a: seq<byte>, b: seq<byte>)
    requires |a| == |b| && InAlphabet(a) && InAlphabet(b) && Sextets(a) == Sextets(b)
    ensures a == b
  {
    if a != [] {
      hide Code;
      var n := |a| - 1;
      CodeIsSmall(a[n]);
      CodeIsSmall(b[n]);
      SameDigit(Sextets(a[..n]), Code(a[n]), Sextets(b[..n]), Code(b[n]));
      SextetsInjective(a[..n], b[..n]);
      SameLetter(a[n], b[n]);
      assert a == a[..n] + [a[n]] && b == b[..n] + [b[n]];
    }
  }

  lemma CodeIsSmall(c: byte)
    ensures Code(c) < 64
  {
  }

  lemma {:induction false} BytesInjective(a: seq<byte>, b: seq<byte>)
    requires |a| == |b| && FromBE(a) == FromBE(b)
    ensures a == b
  {
    if a != [] {
      var n := |a| - 1;
      BytesInjective(a[..n], b[..n]);
      assert a == a[..n] + [a[n]] && b == b[..n] + [b[n]];
    }
  }

  lemma WeightCancels(x: nat, y: nat, bits: int)
    requires x * Weight(bits) == y * Weight(bits)
    ensures x == y
  {
  }

  lemma EncodingUnique(t1: seq<byte>, t2: seq<byte>, bytes: seq<byte>)
    requires IsEncoding(t1, bytes) && IsEncoding(t2, bytes)
    ensures t1 == t2
  {
    SextetsInjective(t1, t2);
  }

  lemma DecodingUnique(text: seq<byte>, b1: seq<byte>, b2: seq<byte>)
    requires IsEncoding(text, b1) && IsEncoding(text, b2)
    ensures b1 == b2
  {
    assert |b1| == |b2|;
    WeightCancels(FromBE(b1), FromBE(b2), 6 * |text| - 8 * |b1|);
    BytesInjective(b1, b2);
  }

  // ---- the encoder ------------------------------------------------------------------------------

  lemma SextetsSnoc(text: seq<byte>, code: nat)
    requires InAlphabet(text) && code < 64
    ensures InAlphabet(text + [Letter(code)])
    ensures Sextets(text + [Letter(code)]) == 64 * Sextets(text) + code
  {
    var longer := text + [Letter(code)];
    assert longer[..|longer| - 1] == text;
  }

  lemma SextetsAt(text: seq<byte>, k: nat)
    requires k < |text| && InAlphabet(text[..k]) && Code(text[k]) >= 0
    ensures InAlphabet(text[..k + 1])
    ensures Sextets(text[..k + 1]) == 64 * Sextets(text[..k]) + Code(text[k])
  {
    assert text[..k + 1][..k] == text[..k];
  }

  lemma FromBESnoc(bytes: seq<byte>, i: nat)
    requires i < |bytes|
    ensures FromBE(bytes[..i + 1]) == 256 * FromBE(bytes[..i]) + bytes[i]
  {
    assert bytes[..i + 1][..i] == bytes[..i];
  }

  lemma FourSextets(val: int)
    requires 0 <= val < 0x100_0000
    ensures 0x4_0000 * (val / 0x4_0000 % 64) + 0x1000 * (val / 0x1000 % 64) + 64 * (val / 64 % 64) + val % 64 == val
  {
    assert val / 0x1000 == val / 64 / 64 && val / 0x4_0000 == val / 64 / 64 / 64;
  }

  /** The text so far encodes the first `i` bytes, in whole blocks. */
  ghost predicate Blocks(result: seq<byte>, bytes: seq<byte>, i: nat)
    requires i <= |bytes|
  {
    && i % 3 == 0
    && InAlphabet(result) && |result| == i / 3 * 4
    && Sextets(result) == FromBE(bytes[..i])
  }

  lemma NoBlocks(bytes: seq<byte>)
    ensures Blocks([], bytes, 0)
  {
  }

  lemma AllBlocks(result: seq<byte>, bytes: seq<byte>)
    requires Blocks(result, bytes, |bytes|)
    ensures IsEncoding(result, bytes)
  {
    hide Sextets, FromBE;
    assert bytes[..|bytes|] == bytes;
  }

  method Base64UrlEncode(bytes: seq<byte>) returns (result: seq<byte>)
    ensures IsEncoding(result, bytes)
  {
    hide IsEncoding, Blocks;
    result := [];
    NoBlocks(bytes);
    var i := 0;
    while i + 2 < |bytes|
      invariant 0 <= i <= |bytes| && Blocks(result, bytes, i)
    {
      result := EncodeBlock(result, bytes, i);
      i := i + 3;
    }
    if i < |bytes| {
      result := EncodeTail(result, bytes, i);
    } else {
      AllBlocks(result, bytes);
    }
  }

  method EncodeBlock(result: seq<byte>, bytes: seq<byte>, i: nat) returns (longer: seq<byte>)
    requires i + 2 < |bytes| && Blocks(result, bytes, i)
    ensures Blocks(longer, bytes, i + 3)
  {
    hide Sextets, InAlphabet, FromBE;
    var b0: int, b1: int, b2: int := bytes[i], bytes[i + 1], bytes[i + 2];
    var val := b0 * 0x1_0000 + b1 * 0x100 + b2;
    FromBESnoc(bytes, i);
    FromBESnoc(bytes, i + 1);
    FromBESnoc(bytes, i + 2);
    FourSextets(val);
    longer := Emit(result, val / 0x4_0000 % 64);
    longer := Emit(longer, val / 0x1000 % 64);
    longer := Emit(longer, val / 64 % 64);
    longer := Emit(longer, val % 64);
  }

  /** The last one or two bytes. */
  method EncodeTail(result: seq<byte>, bytes: seq<byte>, i: nat) returns (longer: seq<byte>)
    requires i < |bytes| <= i + 2 && Blocks(result, bytes, i)
    ensures IsEncoding(longer, bytes)
  {
    hide FromBE, Sextets, InAlphabet;
    var b0: int, b1: int := bytes[i], if i + 1 < |bytes| then bytes[i + 1] else 0;
    var val := b0 * 0x1_0000;
    FromBESnoc(bytes, i);
    if i + 1 < |bytes| {
      val := val + b1 * 0x100;
      FromBESnoc(bytes, i + 1);
    }
    FourSextets(val);
    longer := Emit(result, val / 0x4_0000 % 64);
    longer := Emit(longer, val / 0x1000 % 64);
    if i + 1 < |bytes| {
      longer := Emit(longer, val / 64 % 64);
    }
    assert bytes[..|bytes|] == bytes;
  }

  method Emit(text: seq<byte>, code: nat) returns (longer: seq<byte>)
    requires InAlphabet(text) && code < 64
    ensures InAlphabet(longer) && |longer| == |text| + 1
    ensures Sextets(longer) == 64 * Sextets(text) + code
  {
    SextetsSnoc(text, code);
    longer := text + [Letter(code)];
  }

  // ---- the decoder ------------------------------------------------------------------------------

  ghost predicate Decodable(src: seq<byte>, n: nat) {
    exists bytes: seq<byte> :: |bytes| == n && IsEncoding(src, bytes)
  }

  lemma NotDecodable(src: seq<byte>, n: nat)
    requires
      || |src| != (8 * n + 5) / 6
      || !InAlphabet(src)
      || Sextets(src) % Weight(6 * |src| - 8 * n) != 0
    ensures !Decodable(src, n)
  {
    if Decodable(src, n) {
      var bytes: seq<byte> :| |bytes| == n && IsEncoding(src, bytes);
      MultipleOfWeight(FromBE(bytes), 6 * |src| - 8 * n);
    }
  }

  lemma BadLength(src: seq<byte>, n: nat)
    requires |src| % 4 == 1
    ensures !Decodable(src, n)
  {
    LengthsTaken(n);
    hide *;
    NotDecodable(src, n);
  }

  /** Three bytes take four letters; one byte more takes two, and two take three. */
  lemma LengthsTaken(n: nat)
    ensures (8 * n + 5) / 6 % 4 != 1
  {
    var q, r := n / 3, n % 3;
    assert 8 * n + 5 == 24 * q + 8 * r + 5;
    assert (8 * n + 5) / 6 == 4 * q + (8 * r + 5) / 6;
  }

  lemma BadLetter(src: seq<byte>, k: nat, n: nat)
    requires k < |src| && Code(src[k]) < 0
    ensures !Decodable(src, n)
  {
    NotDecodable(src, n);
  }

  lemma MultipleOfWeight(x: nat, bits: int)
    ensures x * Weight(bits) % Weight(bits) == 0
  {
  }

  /** The accumulator after one more letter. */
  function Shift(val: nat, code: nat): nat { (val * 64 + code) % 0x1_0000_0000 }

  /** The wrap at 32 bits does not reach the bits that still matter. */
  lemma Shifted(val: nat, bits: int, code: nat)
    requires bits in {0, 2, 4, 6} && code < 64
    ensures Shift(val, code) % (64 * Weight(bits)) == val % Weight(bits) * 64 + code
  {
    var next, m := Shift(val, code), (val * 64 + code) / 0x1_0000_0000;
    assert next == val * 64 + code - m * 0x1_0000_0000;
    if bits == 0 {
      Remainder(next, val - m * 0x400_0000, 64, code);
    } else if bits == 2 {
      Remainder(next, val / 4 - m * 0x100_0000, 256, val % 4 * 64 + code);
    } else if bits == 4 {
      Remainder(next, val / 16 - m * 0x40_0000, 1024, val % 16 * 64 + code);
    } else {
      Remainder(next, val / 64 - m * 0x10_0000, 4096, val % 64 * 64 + code);
    }
  }

  /** The top eight of the pending bits leave the accumulator. */
  lemma ByteLeaves(next: nat, bits: int)
    requires bits in {0, 2, 4}
    ensures next % (256 * Weight(bits)) == next / Weight(bits) % 256 * Weight(bits) + next % Weight(bits)
  {
    if bits == 0 {
    } else if bits == 2 {
      Remainder(next, next / 4 / 256, 1024, next / 4 % 256 * 4 + next % 4);
    } else {
      Remainder(next, next / 16 / 256, 4096, next / 16 % 256 * 16 + next % 16);
    }
  }

  /** What the step does to the number read so far (`text`), split into the bytes written (`head`) and the rest. */
  lemma StepWithoutByte(text: nat, head: nat, val: nat, code: nat)
    requires text == head * Weight(0) + val % Weight(0) && code < 64
    ensures 64 * text + code == head * Weight(6) + Shift(val, code) % Weight(6)
  {
    Shifted(val, 0, code);
  }

  lemma StepWithByte(text: nat, head: nat, val: nat, bits: int, code: nat)
    requires bits in {2, 4, 6} && code < 64
    requires text == head * Weight(bits) + val % Weight(bits)
    ensures var next, w := Shift(val, code), Weight(bits - 2);
      64 * text + code == (256 * head + next / w % 256) * w + next % w
  {
    hide Shift;
    Shifted(val, bits, code);
    ByteLeaves(Shift(val, code), bits - 2);
    if bits == 2 {
    } else if bits == 4 {
    } else {
    }
  }

  /** The letters read so far are the bytes written, followed by the pending bits of the accumulator. */
  ghost predicate Progress(src: seq<byte>, k: nat, dst: seq<byte>, idx: nat, val: nat, bits: int)
    requires k <= |src| && idx <= |dst|
  {
    && bits in {0, 2, 4, 6} && 6 * k == 8 * idx + bits
    && InAlphabet(src[..k])
    && Sextets(src[..k]) == FromBE(dst[..idx]) * Weight(bits) + val % Weight(bits)
  }

  lemma Nothing(src: seq<byte>, dst: seq<byte>)
    ensures Progress(src, 0, dst, 0, 0, 0)
  {
  }

  lemma Finish(src: seq<byte>, dst: seq<byte>, idx: nat, val: nat, bits: int)
    requires idx <= |dst| && |src| % 4 != 1 && Progress(src, |src|, dst, idx, val, bits)
    ensures bits in {0, 2, 4} && (bits == 0 ==> val % Weight(bits) == 0)
    ensures idx == |dst| && val % Weight(bits) == 0 ==> IsEncoding(src, dst) && Decodable(src, |dst|)
    ensures idx != |dst| || val % Weight(bits) != 0 ==> !Decodable(src, |dst|)
  {
    assert Weight(0) == 1;
    hide Sextets, FromBE, Weight;
    assert src[..|src|] == src;
    assert bits != 6;
    assert |src| == (8 * idx + 5) / 6;
    if idx != |dst| {
      NotDecodable(src, |dst|);
    } else {
      assert dst[..idx] == dst;
      Remainder(Sextets(src), FromBE(dst), Weight(bits), val % Weight(bits));
      if val % Weight(bits) != 0 {
        NotDecodable(src, |dst|);
      }
    }
  }

  /** The body of the decoding loop, after the letter has been looked up. */
  method Feed(src: seq<byte>, k: nat, dst: array<byte>, idx0: nat, val0: nat, bits0: int, code: nat)
    returns (val: nat, bits: int, idx: nat, full: bool)
    requires k < |src| && idx0 <= dst.Length && Progress(src, k, dst[..], idx0, val0, bits0) && Code(src[k]) == code
    modifies dst
    ensures full ==> !Decodable(src, dst.Length)
    ensures !full ==> idx <= dst.Length && Progress(src, k + 1, dst[..], idx, val, bits)
  {
    hide Code, Shift, Sextets, FromBE, Weight;
    CodeIsSmall(src[k]);
    SextetsAt(src, k);
    if bits0 == 0 {
      StepWithoutByte(Sextets(src[..k]), FromBE(dst[..][..idx0]), val0, code);
    } else {
      StepWithByte(Sextets(src[..k]), FromBE(dst[..][..idx0]), val0, bits0, code);
    }
    val, bits, idx, full := Shift(val0, code), bits0 + 6, idx0, false;
    if bits >= 8 {
      bits := bits - 8;
      if idx >= dst.Length {
        NotDecodable(src, dst.Length);
        full := true;
        return;
      }
      ghost var done := dst[..][..idx];
      dst[idx] := val / Weight(bits) % 256;
      FromBESnoc(dst[..], idx);
      assert dst[..][..idx] == done;
      idx := idx + 1;
    }
  }

  /** Decoding succeeds exactly when the text is an encoding of that many bytes, and then yields them. */
  method Base64UrlDecode(src: seq<byte>, dst: array<byte>) returns (ok: bool)
    modifies dst
    ensures ok <==> Decodable(src, dst.Length)
    ensures ok ==> IsEncoding(src, dst[..])
  {
    hide Progress, IsEncoding, Decodable, Sextets, FromBE, Weight, Code;
    if |src| % 4 == 1 {
      BadLength(src, dst.Length);
      return false;
    }
    Nothing(src, dst[..]);
    var val: nat, bits, idx := 0, 0, 0;
    for k := 0 to |src|
      invariant 0 <= idx <= dst.Length && Progress(src, k, dst[..], idx, val, bits)
    {
      var code := Code(src[k]);
      if code < 0 {
        BadLetter(src, k, dst.Length);
        return false;
      }
      var full;
      val, bits, idx, full := Feed(src, k, dst, idx, val, bits, code);
      if full {
        return false;
      }
    }
    Finish(src, dst[..], idx, val, bits);
    ok := idx == dst.Length;
    if bits > 0 {
      if val % Weight(bits) != 0 {
        return false;
      }
    }
  }

  /** Encoding and then decoding gives the bytes back. */
  method EncodeThenDecode(bytes: seq<byte>) returns (ok: bool, out: seq<byte>)
    ensures ok && out == bytes
  {
    var text := Base64UrlEncode(bytes);
    var dst := new byte[|bytes|];
    ok := Base64UrlDecode(text, dst);
    out := dst[..];
    DecodingUnique(text, bytes, out);
  }

  /** Decoding and then encoding gives the text back. */
  method DecodeThenEncode(text: seq<byte>, n: nat) returns (ok: bool, again: seq<byte>)
    ensures ok ==> again == text
  {
    var dst := new byte[n];
    again := [];
    ok := Base64UrlDecode(text, dst);
    if ok {
      again := Base64UrlEncode(dst[..]);
      EncodingUnique(again, text, dst[..]);
    }
  }
}
