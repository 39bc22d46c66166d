/** Ziplists (src/redis_rdb_restore.cpp:689-876): a blob of strings and integers, each behind the size of the element
    before it, which the reader skips. */
module Ziplist {
  import opened Bytes
  import opened Decimal
  import opened Rdb
  import Listpack

  /** Every form an element can take. */
  datatype Entry =
    | I4(n: int)
    | I8(n: int)
    | I16(n: int)
    | I24(n: int)
    | I32(n: int)
    | I64(n: int)
    | Str6(s: Str)
    | Str14(s: Str)
    | Str32(s: Str)
  {
    predicate Valid() {
      match this
      case I4(n) => 0 <= n <= 12
      case I8(n) => -0x80 <= n < 0x80
      case I16(n) => -0x8000 <= n < 0x8000
      case I24(n) => -0x80_0000 <= n < 0x80_0000
      case I32(n) => -0x8000_0000 <= n < 0x8000_0000
      case I64(n) => -0x8000_0000_0000_0000 <= n < 0x8000_0000_0000_0000
      case Str6(s) => |s| < 64
      case Str14(s) => |s| < 16384
      case Str32(s) => |s| < 0x1_0000_0000
    }

    function Text(): Str {
      if Str6? || Str14? || Str32? then s else ToString(n)
    }

    function Data(): Str
      requires Valid()
    {
      match this
      case I4(n) => [0xF1 + n]
      case I8(n) => [0xFE] + LE(1, n % 0x100)
      case I16(n) => [0xC0] + LE(2, n % 0x1_0000)
      case I24(n) => [0xF0] + LE(3, n % 0x100_0000)
      case I32(n) => [0xD0] + LE(4, n % 0x1_0000_0000)
      case I64(n) => [0xE0] + LE(8, n % 0x1_0000_0000_0000_0000)
      case Str6(s) => [|s|] + s
      case Str14(s) => [0x40 + |s| / 256] + ([|s| % 256] + s)
      case Str32(s) => [0x80] + (BE(4, |s|) + s)
    }
  }

  // ---- what reading means -------------------------------------------------------------------------

  /** ReadZipListPrevLen: the bytes skipped. */
  function SkipPrev(s: Str): (p: Parsed<Str>)
    ensures p.Ok? ==> |p.rest| < |s|
  {
    if s == [] then Bad
    else if s[0] < 254 then TakeBytes(s, 1)
    else if s[0] == 254 then TakeBytes(s, 5)
    else Bad
  }

  function ParseStr(first: byte, rest: Str): (p: Parsed<Str>)
    requires first <= 0x80
    ensures p.Ok? ==> |p.rest| <= |rest|
  {
    if first < 0x40 then TakeBytes(rest, first)
    else if first < 0x80 then
      if rest == [] then Bad
      else
        var f: int, low: int := first, rest[0];
        TakeBytes(rest[1..], f % 64 * 256 + low)
    else if |rest| < 4 then Bad else TakeBytes(rest[4..], FromBE(rest[..4]))
  }

  function ParseNumber(first: byte, rest: Str): (p: Parsed<Str>)
    requires first > 0x80
    ensures p.Ok? ==> |p.rest| <= |rest|
  {
    if first == 0xC0 then ParseInt(rest, 2, 0x8000)
    else if first == 0xD0 then ParseInt(rest, 4, 0x8000_0000)
    else if first == 0xE0 then ParseInt(rest, 8, 0x8000_0000_0000_0000)
    else if first == 0xF0 then ParseInt(rest, 3, 0x80_0000)
    else if first == 0xFE then ParseInt(rest, 1, 0x80)
    else if 0xF0 < first < 0xFE then Ok(ToString(first - 0xF1), rest)
    else Bad
  }

  function ParseValue(s: Str): (p: Parsed<Str>)
    ensures p.Ok? ==> |p.rest| < |s|
  {
    if s == [] then Bad else if s[0] <= 0x80 then ParseStr(s[0], s[1..]) else ParseNumber(s[0], s[1..])
  }

  function ParseEntry(s: Str): (p: Parsed<Str>)
    ensures p.Ok? ==> |p.rest| < |s|
  {
    var prev := SkipPrev(s);
    if prev.Bad? then Bad else ParseValue(prev.rest)
  }

  function ParseEntries(s: Str): Parsed<seq<Str>>
    decreases |s|
  {
    if s == [] || s[0] == 0xFF then Ok([], s)
    else
      var e := ParseEntry(s);
      if e.Bad? then Bad
      else
        var more := ParseEntries(e.rest);
        if more.Bad? then Bad else Ok([e.value] + more.value, more.rest)
  }

  /** The elements of a whole blob: the total size and the end marker must agree; the tail offset and the element
      count are not looked at. */
  function ParseZiplist(blob: Str): Parsed<seq<Str>> {
    if |blob| < 11 || FromLE(blob[..4]) != |blob| then Bad
    else
      var es := ParseEntries(blob[10..]);
      if es.Bad? || es.rest != [0xFF] then Bad else Ok(es.value, [])
  }

  // ---- the encoder ------------------------------------------------------------------------------

  function PrevLen(n: nat): Str {
    if n < 254 then [n] else [254] + LE(4, n)
  }

  function Body(es: seq<Entry>, prev: nat): Str
    requires forall i :: 0 <= i < |es| ==> es[i].Valid()
  {
    if es == [] then []
    else
      var entry := PrevLen(prev) + es[0].Data();
      entry + Body(es[1..], |entry|)
  }

  function Texts(es: seq<Entry>): seq<Str> {
    if es == [] then [] else [es[0].Text()] + Texts(es[1..])
  }

  /** Total size, six bytes the reader ignores, elements, end marker. */
  function Blob(body: Str, ignored: Str): Str {
    LE(4, 11 + |body|) + (ignored + (body + [0xFF]))
  }

  // ---- reading undoes encoding --------------------------------------------------------------------

  lemma SkipInverse(n: nat, rest: Str)
    ensures PrevLen(n)[0] != 0xFF
    ensures SkipPrev(PrevLen(n) + rest) == Ok(PrevLen(n), rest)
  {
    hide LE;
    TakeInverse(PrevLen(n), rest);
  }

  lemma ValueInverse(e: Entry, rest: Str)
    requires e.Valid()
    ensures ParseValue(e.Data() + rest) == Ok(e.Text(), rest)
  {
    hide ParseValue, Entry.Data, ToString;
    match e
    case I4(n) => I4Inverse(n, rest);
    case I8(n) => WideInverse(e, 0xFE, n, 1, 0x80, rest);
    case I16(n) => WideInverse(e, 0xC0, n, 2, 0x8000, rest);
    case I24(n) => WideInverse(e, 0xF0, n, 3, 0x80_0000, rest);
    case I32(n) => WideInverse(e, 0xD0, n, 4, 0x8000_0000, rest);
    case I64(n) => WideInverse(e, 0xE0, n, 8, 0x8000_0000_0000_0000, rest);
    case Str6(t) => Str6Inverse(t, rest);
    case Str14(t) => Str14Inverse(t, rest);
    case Str32(t) => Str32Inverse(t, rest);
  }

  lemma I4Inverse(n: int, rest: Str)
    requires 0 <= n <= 12
    ensures ParseValue(I4(n).Data() + rest) == Ok(ToString(n), rest)
  {
    hide ToString;
    assert (I4(n).Data() + rest)[1..] == rest;
  }

  lemma WideInverse(e: Entry, tag: byte, n: int, size: nat, half: int, rest: Str)
    requires e.Valid()
    requires
      || (e == I8(n) && tag == 0xFE && size == 1 && half == 0x80)
      || (e == I16(n) && tag == 0xC0 && size == 2 && half == 0x8000)
      || (e == I24(n) && tag == 0xF0 && size == 3 && half == 0x80_0000)
      || (e == I32(n) && tag == 0xD0 && size == 4 && half == 0x8000_0000)
      || (e == I64(n) && tag == 0xE0 && size == 8 && half == 0x8000_0000_0000_0000)
    ensures ParseValue(e.Data() + rest) == Ok(ToString(n), rest)
  {
    Pow256Values();
    hide ToString, ParseInt, LE, FromLE;
    IntInverse(n, size, half, rest);
    Listpack.Headed(tag, LE(size, n % (2 * half)), rest);
    assert e.Data() == [tag] + LE(size, n % (2 * half));
  }

  lemma Str6Inverse(t: Str, rest: Str)
    requires |t| < 64
    ensures ParseValue(Str6(t).Data() + rest) == Ok(t, rest)
  {
    TakeInverse(t, rest);
    Listpack.Headed(|t|, t, rest);
  }

  lemma Str14Inverse(t: Str, rest: Str)
    requires |t| < 16384
    ensures ParseValue(Str14(t).Data() + rest) == Ok(t, rest)
  {
    var first: byte, low: byte := 0x40 + |t| / 256, |t| % 256;
    Header14(|t|);
    assert Str14(t).Data() + rest == [first] + ([low] + (t + rest));
    hide Entry.Data;
    Medium(first, low, t, rest);
  }

  lemma Header14(n: nat)
    requires n < 16384
    ensures (0x40 + n / 256) % 64 * 256 + n % 256 == n
  {
  }

  lemma Medium(first: byte, low: byte, t: Str, rest: Str)
    requires 0x40 <= first < 0x80
    requires var high: int, low': int := first % 64, low; high * 256 + low' == |t|
    ensures ParseValue([first] + ([low] + (t + rest))) == Ok(t, rest)
  {
    TakeInverse(t, rest);
    var s := [first] + ([low] + (t + rest));
    assert s[1..] == [low] + (t + rest) && s[1..][1..] == t + rest;
  }

  lemma Str32Inverse(t: Str, rest: Str)
    requires |t| < 0x1_0000_0000
    ensures ParseValue(Str32(t).Data() + rest) == Ok(t, rest)
  {
    Pow256Values();
    hide BE, FromBE;
    TakeInverse(t, rest);
    BERoundTrip(4, |t|);
    var size := BE(4, |t|);
    Listpack.Headed(0x80, size + t, rest);
    var body := size + t + rest;
    assert body[..4] == size && body[4..] == t + rest;
  }

  lemma EntryInverse(e: Entry, prev: nat, rest: Str)
    requires e.Valid()
    ensures ParseEntry(PrevLen(prev) + e.Data() + rest) == Ok(e.Text(), rest)
  {
    hide ParseValue, SkipPrev, PrevLen, Entry.Data;
    SkipInverse(prev, e.Data() + rest);
    ValueInverse(e, rest);
    Assoc(PrevLen(prev), e.Data(), rest);
  }

  lemma {:induction false} EntriesInverse(es: seq<Entry>, prev: nat)
    requires forall i :: 0 <= i < |es| ==> es[i].Valid()
    ensures ParseEntries(Body(es, prev) + [0xFF]) == Ok(Texts(es), [0xFF])
    decreases |es|
  {
    if es != [] {
      hide ParseEntry, PrevLen;
      var entry := PrevLen(prev) + es[0].Data();
      var rest := Body(es[1..], |entry|) + [0xFF];
      EntryInverse(es[0], prev, rest);
      EntriesInverse(es[1..], |entry|);
      SkipInverse(prev, []);
      Assoc(entry, Body(es[1..], |entry|), [0xFF]);
    }
  }

  lemma BlobParts(body: Str, ignored: Str)
    requires |ignored| == 6
    ensures var blob := Blob(body, ignored);
      |blob| == 11 + |body| && blob[..4] == LE(4, 11 + |body|) && blob[10..] == body + [0xFF]
  {
    hide LE;
  }

  /** Decoding an encoded ziplist gives its elements back, and uses up the whole blob. */
  lemma ZiplistInverse(es: seq<Entry>, ignored: Str)
    requires (forall i :: 0 <= i < |es| ==> es[i].Valid()) && |ignored| == 6
    requires 11 + |Body(es, 0)| < 0x1_0000_0000
    ensures ParseZiplist(Blob(Body(es, 0), ignored)) == Ok(Texts(es), [])
  {
    Pow256Values();
    var body := Body(es, 0);
    var blob := Blob(body, ignored);
    LERoundTrip(4, 11 + |body|);
    EntriesInverse(es, 0);
    hide LE, FromLE, ParseEntries, Texts, Body, Blob;
    BlobParts(body, ignored);
  }

  // ---- the readers ------------------------------------------------------------------------------

  method ReadZipListPrevLen(r: Reader) returns (ok: bool)
    requires r.Valid()
    modifies r`pos
    ensures r.Valid() && ok == SkipPrev(old(r.Rest())).Ok?
    ensures ok ==> r.Rest() == SkipPrev(old(r.Rest())).rest
  {
    var first;
    ok, first := r.ReadByte();
    if !ok || first < 254 {
      return;
    }
    if first != 254 {
      return false;
    }
    var size;
    ok, size := r.ReadBytes(4);
    assert old(r.Rest())[1..] == r.data[old(r.pos) + 1..];
  }

  method ReadStr(first: byte, r: Reader) returns (ok: bool, value: Str)
    requires first <= 0x80 && r.Valid()
    modifies r`pos
    ensures r.Valid() && ok == ParseStr(first, old(r.Rest())).Ok?
    ensures ok ==> Ok(value, r.Rest()) == ParseStr(first, old(r.Rest()))
  {
    value := [];
    if first < 0x40 {
      ok, value := r.ReadBytes(first);
    } else if first < 0x80 {
      var f: int := first;
      var low;
      ok, low := r.ReadByte();
      if ok {
        ok, value := r.ReadBytes(f % 64 * 256 + low);
      }
    } else {
      var bytes;
      ok, bytes := r.ReadBytes(4);
      if ok {
        ok, value := r.ReadBytes(FromBE(bytes));
      }
    }
  }

  method ReadNumber(first: byte, r: Reader) returns (ok: bool, value: Str)
    requires first > 0x80 && r.Valid()
    modifies r`pos
    ensures r.Valid() && ok == ParseNumber(first, old(r.Rest())).Ok?
    ensures ok ==> Ok(value, r.Rest()) == ParseNumber(first, old(r.Rest()))
  {
    if first == 0xC0 {
      ok, value := r.ReadInt(2, 0x8000);
    } else if first == 0xD0 {
      ok, value := r.ReadInt(4, 0x8000_0000);
    } else if first == 0xE0 {
      ok, value := r.ReadInt(8, 0x8000_0000_0000_0000);
    } else if first == 0xF0 {
      ok, value := Listpack.ReadInt24(r);
    } else if first == 0xFE {
      ok, value := r.ReadInt(1, 0x80);
    } else if first / 16 == 15 && first != 0xFF {
      return true, ToString(first % 16 - 1);
    } else {
      return false, [];
    }
  }

  method ReadZipListEntry(r: Reader) returns (ok: bool, value: Str)
    requires r.Valid()
    modifies r`pos
    ensures r.Valid() && ok == ParseEntry(old(r.Rest())).Ok?
    ensures ok ==> Ok(value, r.Rest()) == ParseEntry(old(r.Rest()))
  {
    hide ParseStr, ParseNumber, SkipPrev;
    value := [];
    ok := ReadZipListPrevLen(r);
    if !ok {
      return;
    }
    var first;
    ok, first := r.ReadByte();
    if !ok {
      return;
    }
    if first <= 0x80 {
      ok, value := ReadStr(first, r);
    } else {
      ok, value := ReadNumber(first, r);
    }
  }

  method ReadEntries(r: Reader) returns (ok: bool, entries: seq<Str>)
    requires r.Valid()
    modifies r`pos
    ensures r.Valid() && ok == ParseEntries(old(r.Rest())).Ok?
    ensures ok ==> entries == ParseEntries(old(r.Rest())).value && r.Rest() == ParseEntries(old(r.Rest())).rest
  {
    hide ParseEntry;
    entries := [];
    ghost var whole := ParseEntries(r.Rest());
    while r.pos < |r.data| && r.data[r.pos] != 0xFF
      invariant r.Valid()
      invariant var more := ParseEntries(r.Rest());
        if more.Bad? then whole.Bad?
        else whole.Ok? && whole.value == entries + more.value && whole.rest == more.rest
      decreases |r.Rest()|
    {
      var value;
      ok, value := ReadZipListEntry(r);
      if !ok {
        return;
      }
      entries := entries + [value];
    }
    ok := true;
  }

  method ReadZipListAll(blob: Str) returns (ok: bool, entries: seq<Str>)
    ensures ok == ParseZiplist(blob).Ok?
    ensures ok ==> entries == ParseZiplist(blob).value
  {
    entries := [];
    if |blob| < 11 {
      return false, [];
    }
    var r := new Reader(blob, 0);
    var _, total := r.ReadBytes(4);
    var _, _ := r.ReadBytes(6);
    assert r.Rest() == blob[10..];
    if FromLE(total) != |blob| {
      return false, [];
    }
    ok, entries := ReadEntries(r);
    if !ok {
      return;
    }
    var marked, last := r.ReadByte();
    var left := r.Remaining();
    if !marked || last != 0xFF || left != 0 {
      return false, [];
    }
  }
}
