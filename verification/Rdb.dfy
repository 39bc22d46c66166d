/** Lengths and strings of the RDB format (src/redis_rdb_restore.cpp:74-128, 158-416).

    What a read means is a function of the bytes that remain; the `Reader` moves a cursor and is proved to compute
    those functions. */
module Rdb {
  import opened Arithmetic
  import opened Bytes
  import opened Decimal
  import Lzf

  datatype Parsed<T> = Bad | Ok(value: T, rest: Str)

  // ---- writing ----------------------------------------------------------------------------------

  /** AppendRdbLen. */
  function RdbLen(n: nat): Str {
    if n < 64 then [n]
    else if n < 16384 then [64 + n / 256, n % 256]
    else if n < 0x1_0000_0000 then [0x80] + BE(4, n)
    else [0x81] + BE(8, n)
  }

  /** AppendRdbString. */
  function RdbString(s: Str): Str { RdbLen(|s|) + s }

  // ---- two's complement ---------------------------------------------------------------------------

  /** The value of a pattern whose sign bit has weight `half`. */
  function Signed(v: nat, half: nat): int { if v < half then v else v - 2 * half }

  lemma SignedInverse(n: int, half: int)
    requires half > 0 && -half <= n < half
    ensures 0 <= n % (2 * half) < 2 * half && Signed(n % (2 * half), half) == n
  {
    if n < 0 {
      Remainder(n, -1, 2 * half, n + 2 * half);
    } else {
      Remainder(n, 0, 2 * half, n);
    }
  }

  /** SignExtend: the sign bit is flipped and its weight taken off. */
  function SignExtend(v: nat, half: nat): int
    requires half > 0
  {
    var value := v % (2 * half);
    (if value / half == 1 then value - half else value + half) - half
  }

  lemma SignExtendIsSigned(v: nat, half: nat)
    requires half > 0 && v < 2 * half
    ensures SignExtend(v, half) == Signed(v, half)
  {
    Remainder(v, 0, 2 * half, v);
    if v < half {
      Remainder(v, 0, half, v);
    } else {
      Remainder(v, 1, half, v - half);
    }
  }

  // ---- reading ----------------------------------------------------------------------------------

  /** A length, or a marker for a special encoding. */
  datatype Length = Plain(n: nat) | Special(kind: nat)

  function TakeBytes(s: Str, n: nat): Parsed<Str> {
    if |s| < n then Bad else Ok(s[..n], s[n..])
  }

  function ParseLen(s: Str): Parsed<Length> {
    if s == [] then Bad
    else
      var first: int, rest := s[0], s[1..];
      if first < 64 then Ok(Plain(first), rest)
      else if first < 128 then
        if rest == [] then Bad else Ok(Plain((first - 64) * 256 + rest[0]), rest[1..])
      else if first < 192 then
        if first == 0x80 && |rest| >= 4 then Ok(Plain(FromBE(rest[..4])), rest[4..])
        else if first == 0x81 && |rest| >= 8 then Ok(Plain(FromBE(rest[..8])), rest[8..])
        else Bad
      else Ok(Special(first - 192), rest)
  }

  /** `past` is the byte behind the whole input. */
  function ParseString(s: Str, past: byte): Parsed<Str> {
    var len := ParseLen(s);
    if len.Bad? then Bad
    else match len.value
      case Plain(n) => TakeBytes(len.rest, n)
      case Special(kind) =>
        if kind == 0 then ParseInt(len.rest, 1, 0x80)
        else if kind == 1 then ParseInt(len.rest, 2, 0x8000)
        else if kind == 2 then ParseInt(len.rest, 4, 0x8000_0000)
        else if kind == 3 then ParseCompressed(len.rest, past)
        else Bad
  }

  /** A little-endian integer, as decimal text. */
  function ParseInt(s: Str, size: nat, half: nat): Parsed<Str> {
    if |s| < size then Bad else Ok(ToString(Signed(FromLE(s[..size]), half)), s[size..])
  }

  function ParsePlain(s: Str): Parsed<nat> {
    var len := ParseLen(s);
    if len.Bad? || len.value.Special? then Bad else Ok(len.value.n, len.rest)
  }

  /** The byte behind a piece of the input. */
  function Behind(rest: Str, past: byte): byte { if rest == [] then past else rest[0] }

  function ParseCompressed(s: Str, past: byte): Parsed<Str> {
    var compressed := ParsePlain(s);
    if compressed.Bad? then Bad
    else
      var original := ParsePlain(compressed.rest);
      if original.Bad? then Bad
      else
        var bytes := TakeBytes(original.rest, compressed.value);
        if bytes.Ok? && Lzf.Accepted(bytes.value, original.value, Behind(bytes.rest, past))
        then Ok(Lzf.Decompress(bytes.value, [], Behind(bytes.rest, past)).out, bytes.rest)
        else Bad
  }

  /** The stream is the last thing of the input, and runs over its end. */
  ghost predicate StreamReadsPast(s: Str) {
    var compressed := ParsePlain(s);
    && compressed.Ok?
    && var original := ParsePlain(compressed.rest);
       && original.Ok? && |original.rest| == compressed.value
       && original.value <= Lzf.MAX_DECODED && Lzf.Overreads(original.rest, [], original.value)
  }

  /** Reading the string takes the byte behind the input. */
  ghost predicate ReadsPast(s: Str) {
    ParseLen(s).Ok? && ParseLen(s).value == Special(3) && StreamReadsPast(ParseLen(s).rest)
  }

  /** Only then does the byte behind the input matter. */
  lemma PastIgnored(s: Str, p1: byte, p2: byte)
    requires !ReadsPast(s)
    ensures ParseString(s, p1) == ParseString(s, p2)
  {
    if ParseLen(s).Ok? && ParseLen(s).value == Special(3) {
      StreamPastIgnored(ParseLen(s).rest, p1, p2);
    }
  }

  lemma StreamPastIgnored(s: Str, p1: byte, p2: byte)
    requires !StreamReadsPast(s)
    ensures ParseCompressed(s, p1) == ParseCompressed(s, p2)
  {
    hide Lzf.Decompress, Lzf.Overreads, ParsePlain;
    var compressed := ParsePlain(s);
    if compressed.Ok? && ParsePlain(compressed.rest).Ok? {
      var original := ParsePlain(compressed.rest);
      if |original.rest| == compressed.value && original.value <= Lzf.MAX_DECODED {
        assert original.rest[..compressed.value] == original.rest;
        Lzf.AcceptedIgnores(original.rest, original.value, p1, p2);
      }
    }
  }

  // ---- reading undoes writing -----------------------------------------------------------------------

  lemma LenInverse(n: nat, rest: Str)
    requires n < 0x1_0000_0000_0000_0000
    ensures ParseLen(RdbLen(n) + rest) == Ok(Plain(n), rest)
  {
    Pow256Values();
    hide BE, FromBE, Pow256;
    var s := RdbLen(n) + rest;
    if n < 64 {
      assert s[1..] == rest;
    } else if n < 16384 {
      assert s[1..][1..] == rest;
    } else if n < 0x1_0000_0000 {
      BERoundTrip(4, n);
      assert s[1..] == BE(4, n) + rest;
      assert s[1..][..4] == BE(4, n) && s[1..][4..] == rest;
    } else {
      BERoundTrip(8, n);
      assert s[1..] == BE(8, n) + rest;
      assert s[1..][..8] == BE(8, n) && s[1..][8..] == rest;
    }
  }

  /** Each of the four forms reads as its number, needed or not: six bits, fourteen, thirty-two, sixty-four. */
  lemma LenForms(n: nat, rest: Str)
    ensures n < 64 ==> ParseLen([n] + rest) == Ok(Plain(n), rest)
    ensures n < 16384 ==> ParseLen([64 + n / 256] + ([n % 256] + rest)) == Ok(Plain(n), rest)
    ensures n < 0x1_0000_0000 ==> ParseLen([0x80] + (BE(4, n) + rest)) == Ok(Plain(n), rest)
    ensures n < 0x1_0000_0000_0000_0000 ==> ParseLen([0x81] + (BE(8, n) + rest)) == Ok(Plain(n), rest)
  {
    hide ParseLen, BE;
    ShortForms(n, rest);
    LongForms(n, rest);
  }

  lemma ShortForms(n: nat, rest: Str)
    ensures n < 64 ==> ParseLen([n] + rest) == Ok(Plain(n), rest)
    ensures n < 16384 ==> ParseLen([64 + n / 256] + ([n % 256] + rest)) == Ok(Plain(n), rest)
  {
    if n < 16384 {
      var s: Str := [64 + n / 256] + ([n % 256] + rest);
      assert s[1..] == [n % 256] + rest && s[1..][1..] == rest;
    }
    if n < 64 {
      assert ([n] + rest)[1..] == rest;
    }
  }

  lemma LongForms(n: nat, rest: Str)
    ensures n < 0x1_0000_0000 ==> ParseLen([0x80] + (BE(4, n) + rest)) == Ok(Plain(n), rest)
    ensures n < 0x1_0000_0000_0000_0000 ==> ParseLen([0x81] + (BE(8, n) + rest)) == Ok(Plain(n), rest)
  {
    Pow256Values();
    hide BE, FromBE, Pow256;
    WideForm(n, 4, rest);
    WideForm(n, 8, rest);
    assert ([0x80] + (BE(4, n) + rest))[1..] == BE(4, n) + rest;
    assert ([0x81] + (BE(8, n) + rest))[1..] == BE(8, n) + rest;
  }

  lemma WideForm(n: nat, k: nat, rest: Str)
    ensures n < Pow256(k) ==> FromBE((BE(k, n) + rest)[..k]) == n
    ensures (BE(k, n) + rest)[k..] == rest
  {
    hide BE, FromBE;
    assert (BE(k, n) + rest)[..k] == BE(k, n);
    if n < Pow256(k) {
      BERoundTrip(k, n);
    }
  }

  /** Nothing else is a length: what is refused is empty, cut off, or starts with a byte that no form has. */
  lemma LenBadIff(s: Str)
    ensures ParseLen(s).Bad? <==>
      s == [] || 0x82 <= s[0] < 0xC0
      || |s| < (if s[0] < 0x40 || s[0] >= 0xC0 then 1 else if s[0] < 0x80 then 2 else if s[0] == 0x80 then 5 else 9)
    ensures s != [] && s[0] >= 0xC0 ==> ParseLen(s) == Ok(Special(s[0] - 0xC0), s[1..])
  {
  }

  /** No shorter byte string reads as the same length. */
  lemma ShortestLen(s: Str, n: nat)
    requires ParseLen(s).Ok? && ParseLen(s).value == Plain(n)
    ensures |RdbLen(n)| <= |s| - |ParseLen(s).rest|
  {
    Pow256Values();
    hide FromBE;
    if s[0] == 0x80 {
      FromBEBound(s[1..][..4]);
    } else if s[0] == 0x81 {
      FromBEBound(s[1..][..8]);
    }
  }

  lemma StringInverse(text: Str, rest: Str, past: byte)
    requires |text| < 0x1_0000_0000_0000_0000
    ensures ParseString(RdbString(text) + rest, past) == Ok(text, rest)
  {
    Assoc(RdbLen(|text|), text, rest);
    LenInverse(|text|, text + rest);
    assert (text + rest)[..|text|] == text && (text + rest)[|text|..] == rest;
  }

  /** The three integer encodings stand for the decimal text. */
  lemma IntInverse(n: int, size: nat, half: int, rest: Str)
    requires half > 0 && Pow256(size) == 2 * half && -half <= n < half
    ensures ParseInt(LE(size, n % (2 * half)) + rest, size, half) == Ok(ToString(n), rest)
  {
    SignedInverse(n, half);
    LERoundTrip(size, n % (2 * half));
    var s := LE(size, n % (2 * half)) + rest;
    assert s[..size] == LE(size, n % (2 * half)) && s[size..] == rest;
  }

  lemma IntStringInverse(n: int, rest: Str, past: byte)
    ensures -0x80 <= n < 0x80 ==> ParseString([0xC0] + (LE(1, n % 0x100) + rest), past) == Ok(ToString(n), rest)
    ensures -0x8000 <= n < 0x8000 ==> ParseString([0xC1] + (LE(2, n % 0x1_0000) + rest), past) == Ok(ToString(n), rest)
    ensures -0x8000_0000 <= n < 0x8000_0000 ==>
      ParseString([0xC2] + (LE(4, n % 0x1_0000_0000) + rest), past) == Ok(ToString(n), rest)
  {
    Pow256Values();
    if -0x80 <= n < 0x80 {
      IntInverse(n, 1, 0x80, rest);
    }
    if -0x8000 <= n < 0x8000 {
      IntInverse(n, 2, 0x8000, rest);
    }
    if -0x8000_0000 <= n < 0x8000_0000 {
      IntInverse(n, 4, 0x8000_0000, rest);
    }
  }

  lemma TakeInverse(t: Str, rest: Str)
    ensures TakeBytes(t + rest, |t|) == Ok(t, rest)
  {
    assert (t + rest)[..|t|] == t && (t + rest)[|t|..] == rest;
  }

  /** A compressed string stands for the expansion of its tokens. */
  lemma CompressedInverse(ts: seq<Lzf.Token>, rest: Str, past: byte)
    requires Lzf.AllWellFormed(ts, 0) && |Lzf.Expand(ts, [])| <= Lzf.MAX_DECODED
    requires |Lzf.Encode(ts, 0)| < 0x1_0000_0000_0000_0000
    ensures var c, text := Lzf.Encode(ts, 0), Lzf.Expand(ts, []);
      ParseString([0xC3] + (RdbLen(|c|) + (RdbLen(|text|) + (c + rest))), past) == Ok(text, rest)
  {
    var c, text := Lzf.Encode(ts, 0), Lzf.Expand(ts, []);
    Lzf.DecompressInvertsEncode(ts, [], Behind(rest, past));
    CompressedBody(c, text, rest, past);
    hide *;
    SpecialFirst(RdbLen(|c|) + (RdbLen(|text|) + (c + rest)), past);
  }

  lemma PlainInverse(n: nat, rest: Str)
    requires n < 0x1_0000_0000_0000_0000
    ensures ParsePlain(RdbLen(n) + rest) == Ok(n, rest)
  {
    hide RdbLen, ParseLen;
    LenInverse(n, rest);
  }

  lemma CompressedBody(c: Str, text: Str, rest: Str, past: byte)
    requires |c| < 0x1_0000_0000_0000_0000 && |text| <= Lzf.MAX_DECODED
    requires Lzf.Decompress(c, [], Behind(rest, past)) == Lzf.Done(text)
    ensures ParseCompressed(RdbLen(|c|) + (RdbLen(|text|) + (c + rest)), past) == Ok(text, rest)
  {
    hide ParsePlain, RdbLen, TakeBytes, Lzf.Decompress, Behind;
    PlainInverse(|c|, RdbLen(|text|) + (c + rest));
    PlainInverse(|text|, c + rest);
    TakeInverse(c, rest);
  }

  lemma SpecialFirst(s: Str, past: byte)
    ensures ParseString([0xC3] + s, past) == ParseCompressed(s, past)
  {
    hide ParseCompressed;
    assert ([0xC3] + s)[1..] == s;
  }

  // ---- the reader -------------------------------------------------------------------------------

  class Reader {
    const data: Str
    /** The byte behind the input, whatever it is. */
    const past: byte
    var pos: nat
    /** That byte has been read. */
    ghost var overran: bool

    ghost predicate Valid()
      reads this
    {
      pos <= |data|
    }

    ghost function Rest(): Str
      requires Valid()
      reads this
    {
      data[pos..]
    }

    constructor (data: Str, past: byte)
      ensures Valid() && Rest() == data && this.past == past && !overran
    {
      this.data, this.past := data, past;
      pos, overran := 0, false;
    }

    method Remaining() returns (n: nat)
      requires Valid()
      ensures n == |Rest()|
    {
      n := |data| - pos;
    }

    method ReadByte() returns (ok: bool, value: byte)
      requires Valid()
      modifies this`pos
      ensures Valid() && ok == (old(Rest()) != [])
      ensures ok ==> value == old(Rest())[0] && Rest() == old(Rest())[1..]
    {
      if pos >= |data| {
        return false, 0;
      }
      value := data[pos];
      pos := pos + 1;
      return true, value;
    }

    method ReadBytes(n: nat) returns (ok: bool, value: Str)
      requires Valid()
      modifies this`pos
      ensures Valid() && ok == TakeBytes(old(Rest()), n).Ok?
      ensures ok ==> Ok(value, Rest()) == TakeBytes(old(Rest()), n)
    {
      if |data| - pos < n {
        return false, [];
      }
      value := data[pos..pos + n];
      assert old(Rest())[..n] == value && old(Rest())[n..] == data[pos + n..];
      pos := pos + n;
      return true, value;
    }

    method ReadLen() returns (ok: bool, len: nat, encoded: bool)
      requires Valid()
      modifies this`pos
      ensures Valid() && ok == ParseLen(old(Rest())).Ok?
      ensures ok ==> Ok(if encoded then Special(len) else Plain(len), Rest()) == ParseLen(old(Rest()))
    {
      len, encoded := 0, false;
      var first;
      ok, first := ReadByte();
      if !ok {
        return;
      }
      var kind := first / 64;
      if kind == 0 {
        len := first % 64;
      } else if kind == 1 {
        var next;
        ok, next := ReadByte();
        var high: int := first % 64;
        len := high * 256 + next;
      } else if kind == 2 {
        var bytes;
        if first == 0x80 {
          ok, bytes := ReadBytes(4);
          len := FromBE(bytes);
        } else if first == 0x81 {
          ok, bytes := ReadBytes(8);
          len := FromBE(bytes);
        } else {
          ok := false;
        }
      } else {
        len, encoded := first % 64, true;
      }
    }

    method ReadInt(size: nat, half: nat) returns (ok: bool, value: Str)
      requires Valid()
      modifies this`pos
      ensures Valid() && ok == ParseInt(old(Rest()), size, half).Ok?
      ensures ok ==> Ok(value, Rest()) == ParseInt(old(Rest()), size, half)
    {
      var bytes;
      ok, bytes := ReadBytes(size);
      value := if ok then ToString(Signed(FromLE(bytes), half)) else [];
    }

    method ReadPlain() returns (ok: bool, len: nat)
      requires Valid()
      modifies this`pos
      ensures Valid() && ok == ParsePlain(old(Rest())).Ok?
      ensures ok ==> Ok(len, Rest()) == ParsePlain(old(Rest()))
    {
      var encoded;
      ok, len, encoded := ReadLen();
      if encoded {
        ok := false;
      }
    }

    method ReadCompressed() returns (ok: bool, value: Str)
      requires Valid()
      modifies this`pos, this`overran
      ensures Valid() && ok == ParseCompressed(old(Rest()), past).Ok?
      ensures ok ==> Ok(value, Rest()) == ParseCompressed(old(Rest()), past)
      ensures overran == (old(overran) || StreamReadsPast(old(Rest())))
    {
      hide ParsePlain, Lzf.Overreads, Lzf.Decompress, Lzf.Accepted;
      var compressed, original, bytes;
      value := [];
      ok, compressed := ReadPlain();
      if !ok {
        return;
      }
      ok, original := ReadPlain();
      if !ok {
        return;
      }
      ghost var stream := Rest();
      ok, bytes := ReadBytes(compressed);
      if !ok {
        return;
      }
      assert |stream| == compressed ==> stream[..compressed] == stream;
      ghost var over;
      ok, value, over := Lzf.LzfDecompress(bytes, original, if pos < |data| then data[pos] else past);
      overran := overran || (over && pos == |data|);
    }

    method ReadString() returns (ok: bool, value: Str)
      requires Valid()
      modifies this`pos, this`overran
      ensures Valid() && ok == ParseString(old(Rest()), past).Ok?
      ensures ok ==> Ok(value, Rest()) == ParseString(old(Rest()), past)
      ensures overran == (old(overran) || ReadsPast(old(Rest())))
    {
      var len, encoded;
      value := [];
      ok, len, encoded := ReadLen();
      if !ok {
        return;
      }
      if !encoded {
        ok, value := ReadBytes(len);
      } else if len == 0 {
        ok, value := ReadInt(1, 0x80);
      } else if len == 1 {
        ok, value := ReadInt(2, 0x8000);
      } else if len == 2 {
        ok, value := ReadInt(4, 0x8000_0000);
      } else if len == 3 {
        ok, value := ReadCompressed();
      } else {
        ok := false;
      }
    }
  }
}
