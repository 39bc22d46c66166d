/** The formats byte by byte: how small objects, dumps and blobs are laid out. */
module WireFormats {
  import opened Bytes
  import opened ObjectCodec
  import opened Rdb
  import opened RdbDecode
  import opened RdbDump
  import Base64Url
  import Decimal
  import HashObject
  import Intset
  import Listpack
  import Lzf
  import RdbRestore
  import StringObject
  import Ziplist
  import ZsetObject

  // ---- stored objects -----------------------------------------------------------------------------

  /** Numbers of four and eight bytes, least significant first. */
  lemma SmallNumbers(n: nat)
    requires n < 256
    ensures LE(4, n) == [n, 0, 0, 0] && LE(8, n) == [n, 0, 0, 0, 0, 0, 0, 0]
  {
    assert LE(4, 0) == [0, 0, 0, 0];
  }

  lemma OneChunk(chunk: Str)
    ensures Join([chunk]) == chunk
  {
    assert [chunk][1..] == [];
  }

  lemma OneSized(x: Str)
    ensures AllSized([x]) == Sized(x)
  {
    assert [x][1..] == [];
  }

  lemma TwoSized(x: Str, y: Str)
    ensures AllSized([x, y]) == Sized(x) + Sized(y)
  {
    OneSized(y);
    assert [x, y][1..] == [y];
  }

  lemma SizedLayout(x: Str)
    requires |x| < 256
    ensures Sized(x) == [|x|, 0, 0, 0] + x
  {
    SmallNumbers(|x|);
  }

  /** The type byte, the count if there is one, and the strings behind their lengths. */
  lemma StoredStrings(x: Str, y: Str)
    ensures StringObject.StringBytes(Forever, x) == [0] + Sized(x)
    ensures StringsBytes(LIST, Forever, [x, y]) == [1] + ([2, 0, 0, 0] + (Sized(x) + Sized(y)))
    ensures StringsBytes(SET, Forever, [x]) == [5] + ([1, 0, 0, 0] + Sized(x))
  {
    SmallNumbers(1);
    SmallNumbers(2);
    hide LE, Sized, AllSized;
    OneSized(x);
    TwoSized(x, y);
  }

  /** An expiry time has its own type byte and stands in eight bytes behind it. */
  lemma StoredUntil(x: Str, ms: nat)
    requires ms < 256
    ensures StringsBytes(SET, Until(ms), [x]) == [11, ms, 0, 0, 0, 0, 0, 0, 0] + ([1, 0, 0, 0] + Sized(x))
  {
    SmallNumbers(1);
    SmallNumbers(ms);
    hide LE, Sized, AllSized;
    OneSized(x);
  }

  lemma StoredMaps(k: Str, v: Str, score: ZsetObject.Score)
    ensures HashObject.HashBytes(Forever, [k], map[k := v]) == [2] + ([1, 0, 0, 0] + (Sized(k) + Sized(v)))
    ensures ZsetObject.ZsetBytes(Forever, [k], map[k := score]) == [4] + ([1, 0, 0, 0] + (Sized(k) + LE(8, score)))
  {
    SmallNumbers(1);
    hide LE, Sized, Join;
    assert HashObject.Pairs([k], map[k := v]) == [Sized(k) + Sized(v)];
    assert ZsetObject.ScoredItems([k], map[k := score]) == [Sized(k) + LE(8, score)];
    OneChunk(Sized(k) + Sized(v));
    OneChunk(Sized(k) + LE(8, score));
  }

  /** What RESTORE stores has the type byte twice: once in front, once in the object's own encoding. */
  lemma RestoredTypes(payload: Str, c: Content)
    requires RdbRestore.IsEloq(payload, c)
    ensures |payload| >= 2 && payload[0] == payload[1] ==
      match c
      case StringContent(_) => 0
      case ListContent(_) => 1
      case HashContent(_) => 2
      case ZsetContent(_) => 4
      case SetContent(_) => 5
  {
    hide LE, Sized, AllSized, Join;
  }

  // ---- dumps --------------------------------------------------------------------------------------

  lemma OneEncoded<T>(x: T, enc: T -> Str)
    ensures CountedBytes([x], enc) == [1] + enc(x)
  {
    assert [x][1..] == [] && EncodeMany([x], enc) == enc(x) + [];
  }

  lemma TwoEncoded<T>(x: T, y: T, enc: T -> Str)
    ensures CountedBytes([x, y], enc) == [2] + (enc(x) + enc(y))
  {
    assert [x, y][1..] == [y] && [y][1..] == [] && EncodeMany([y], enc) == enc(y) + [];
  }

  /** The type byte, the count, and the entries; strings behind their lengths, scores as eight bytes. */
  lemma Dumped(x: Str, y: Str, score: ZsetObject.Score)
    requires |x| < 64
    ensures RdbString(x) == [|x|] + x
    ensures DumpBytes(StringContent(x)) == [0] + RdbString(x)
    ensures DumpBytes(ListContent([x, y])) == [1] + ([2] + (RdbString(x) + RdbString(y)))
    ensures DumpBytes(SetContent([x])) == [2] + ([1] + RdbString(x))
    ensures DumpBytes(HashContent([(x, y)])) == [4] + ([1] + (RdbString(x) + RdbString(y)))
    ensures DumpBytes(ZsetContent([(score, x)])) == [5] + ([1] + (RdbString(x) + LE(8, score)))
  {
    hide LE, CountedBytes, EncodeMany;
    OneEncoded(x, RdbString);
    TwoEncoded(x, y, RdbString);
    OneEncoded((x, y), RdbPair);
    OneEncoded((score, x), RdbScored);
  }

  // ---- blobs of Redis -----------------------------------------------------------------------------

  /** A ziplist of a short string and a small number: each behind the length of what precedes it. */
  lemma ZiplistLayout(x: Str, n: nat)
    requires |x| < 64 && n <= 12
    ensures Ziplist.Body([Ziplist.Str6(x), Ziplist.I4(n)], 0) == [0, |x|] + x + [|x| + 2, 0xF1 + n]
    ensures Ziplist.Texts([Ziplist.Str6(x), Ziplist.I4(n)]) == [x, Decimal.ToString(n)]
  {
    var es := [Ziplist.Str6(x), Ziplist.I4(n)];
    assert es[1..] == [Ziplist.I4(n)] && [Ziplist.I4(n)][1..] == [];
    assert Ziplist.Texts([Ziplist.I4(n)]) == [Decimal.ToString(n)];
    assert Ziplist.Body([Ziplist.I4(n)], |x| + 2) == [|x| + 2, 0xF1 + n];
  }

  /** A listpack of a short string and a small number: each before its own length. */
  lemma ListpackLayout(x: Str, n: nat)
    requires |x| < 64 && n < 128
    ensures Listpack.Body([Listpack.Str6(x), Listpack.U7(n)]) == [0x80 + |x|] + x + [|x| + 1, n, 1]
    ensures Listpack.Texts([Listpack.Str6(x), Listpack.U7(n)]) == [x, Decimal.ToString(n)]
  {
    var es := [Listpack.Str6(x), Listpack.U7(n)];
    assert es[1..] == [Listpack.U7(n)] && [Listpack.U7(n)][1..] == [];
    assert Listpack.Texts([Listpack.U7(n)]) == [Decimal.ToString(n)];
    assert Listpack.Body([Listpack.U7(n)]) == [n, 1];
    assert Listpack.EntryBytes(es[0]) == [0x80 + |x|] + x + [|x| + 1];
  }

  lemma OneNumber(n: int)
    ensures Intset.Body([n], 2) == LE(2, n % 0x1_0000)
  {
    hide LE;
    assert [n][1..] == [];
  }

  /** An intset of one number: width, count, the number in two's complement. */
  lemma IntsetLayout(n: int)
    requires -0x8000 <= n < 0x8000
    ensures Intset.Blob([n], 2) == [2, 0, 0, 0] + ([1, 0, 0, 0] + LE(2, n % 0x1_0000))
    ensures Intset.Texts([n]) == [Decimal.ToString(n)]
  {
    SmallNumbers(2);
    SmallNumbers(1);
    OneNumber(n);
    hide LE, Intset.Body;
  }

  /** Three bytes as they are, and the last three of them once more. */
  lemma LzfLayout(a: byte, b: byte, c: byte)
    ensures Lzf.Decompress([2, a, b, c, 0x20, 2], [], 0) == Lzf.Done([a, b, c, a, b, c])
  {
    var copy, out: Str := Lzf.Copy(3, 3), [a, b, c];
    var ts := [Lzf.Literal(out), copy];
    CopyLayout(out);
    assert ts[1..] == [copy] && [] + out == out;
    assert Lzf.Encode(ts, 0) == [2, a, b, c, 0x20, 2] && Lzf.Expand(ts, []) == out + out;
    hide *;
    assert out + out == [a, b, c, a, b, c];
    Lzf.DecompressInvertsEncode(ts, [], 0);
  }

  lemma CopyLayout(out: Str)
    requires |out| == 3
    ensures var copy := [Lzf.Copy(3, 3)];
      Lzf.AllWellFormed(copy, 3) && Lzf.Encode(copy, 3) == [0x20, 2] && Lzf.Expand(copy, out) == out + out
  {
    var copy := [Lzf.Copy(3, 3)];
    assert copy[1..] == [];
    assert Lzf.Produces(copy[0], out) == out;
  }

  /** Two vectors of section 10 of RFC 4648, and one with both letters that base64url changes. */
  lemma Base64Vectors()
    ensures Base64Url.IsEncoding(['Z' as int, 'g' as int], ['f' as int])
    ensures Base64Url.IsEncoding(['Z' as int, 'm' as int, '8' as int], ['f' as int, 'o' as int])
    ensures Base64Url.IsEncoding(['-' as int, '_' as int, '8' as int], [0xFB, 0xFF])
  {
    TwoLetters('Z' as int, 'g' as int, 0);
    TwoLetters('Z' as int, 'm' as int, '8' as int);
    TwoLetters('-' as int, '_' as int, '8' as int);
    hide Base64Url.Sextets;
    assert FromBE(['f' as int]) == 102;
    assert [0xFB, 0xFF][..1] == [0xFB] && FromBE([0xFB, 0xFF]) == 0xFBFF;
    assert ['f' as int, 'o' as int][..1] == ['f' as int] && FromBE(['f' as int, 'o' as int]) == 102 * 256 + 111;
  }

  lemma TwoLetters(a: byte, b: byte, c: byte)
    requires Base64Url.Code(a) >= 0 && Base64Url.Code(b) >= 0
    ensures Base64Url.Sextets([a, b]) == 64 * Base64Url.Code(a) + Base64Url.Code(b)
    ensures Base64Url.Code(c) >= 0 ==>
      Base64Url.Sextets([a, b, c]) == 4096 * Base64Url.Code(a) + 64 * Base64Url.Code(b) + Base64Url.Code(c)
  {
    hide Base64Url.Code;
    assert [a, b, c][..2] == [a, b] && [a, b][..1] == [a] && [a][..0] == [];
    assert Base64Url.Sextets([a]) == Base64Url.Code(a);
  }
}
