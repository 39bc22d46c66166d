/** Listpacks (src/redis_rdb_restore.cpp:417-634): a blob of strings and integers, each behind a header byte and in
    front of its own length. */
module Listpack {
  import opened Arithmetic
  import opened Bytes
  import opened Decimal
  import opened Rdb

  /** Every form an element can take. */
  datatype Entry =
    | U7(n: int)
    | I13(n: int)
    | I16(n: int)
    | I24(n: int)
    | I32(n: int)
    | I64(n: int)
    | Str6(s: Str)
    | Str12(s: Str)
    | Str32(s: Str)
  {
    predicate Valid() {
      match this
      case U7(n) => 0 <= n < 0x80
      case I13(n) => -0x1000 <= n < 0x1000
      case I16(n) => -0x8000 <= n < 0x8000
      case I24(n) => -0x80_0000 <= n < 0x80_0000
      case I32(n) => -0x8000_0000 <= n < 0x8000_0000
      case I64(n) => -0x8000_0000_0000_0000 <= n < 0x8000_0000_0000_0000
      case Str6(s) => |s| < 64
      case Str12(s) => |s| < 4096
      case Str32(s) => |s| < 0x1_0000_0000
    }

    /** The element as text. */
    function Text(): Str {
      if Str6? || Str12? || Str32? then s else ToString(n)
    }

    function Data(): Str
      requires Valid()
    {
      match this
      case U7(n) => [n]
      case I13(n) => var r: int := n % 0x2000; [0xC0 + r / 256, r % 256]
      case I16(n) => [0xF1] + LE(2, n % 0x1_0000)
      case I24(n) => [0xF2] + LE(3, n % 0x100_0000)
      case I32(n) => [0xF3] + LE(4, n % 0x1_0000_0000)
      case I64(n) => [0xF4] + LE(8, n % 0x1_0000_0000_0000_0000)
      case Str6(s) => [0x80 + |s|] + s
      case Str12(s) => [0xE0 + |s| / 256, |s| % 256] + s
      case Str32(s) => [0xF0] + (LE(4, |s|) + s)
    }
  }

  // ---- what reading one element means -------------------------------------------------------------

  function ParseData(s: Str): (p: Parsed<Str>)
    requires s != []
    ensures p.Ok? ==> |p.rest| < |s|
  {
    if s[0] < 0xF0 then ParseSmall(s[0], s[1..]) else ParseLarge(s[0], s[1..])
  }

  function ParseSmall(first: byte, rest: Str): (p: Parsed<Str>)
    requires first < 0xF0
    ensures p.Ok? ==> |p.rest| <= |rest|
  {
    if first < 0x80 then Ok(ToString(first), rest)
    else if first < 0xC0 then TakeBytes(rest, first - 0x80)
    else if rest == [] then Bad
    else
      var f: int, low: int := first, rest[0];
      if first < 0xE0 then Ok(ToString(Signed(f % 32 * 256 + low, 0x1000)), rest[1..])
      else TakeBytes(rest[1..], f % 16 * 256 + low)
  }

  function ParseLarge(first: byte, rest: Str): (p: Parsed<Str>)
    requires first >= 0xF0
    ensures p.Ok? ==> |p.rest| <= |rest|
  {
    if first == 0xF0 then
      if |rest| < 4 then Bad else TakeBytes(rest[4..], FromLE(rest[..4]))
    else if first == 0xF1 then ParseInt(rest, 2, 0x8000)
    else if first == 0xF2 then ParseInt(rest, 3, 0x80_0000)
    else if first == 0xF3 then ParseInt(rest, 4, 0x8000_0000)
    else if first == 0xF4 then ParseInt(rest, 8, 0x8000_0000_0000_0000)
    else Bad
  }

  function Pow128(k: nat): (r: nat)
    ensures r >= 1
  {
    if k == 0 then 1 else 128 * Pow128(k - 1)
  }

  function Weigh(digit: nat, k: nat): nat { digit * Pow128(k) }

  /** DecodeBackLen: seven bits a byte, the low ones first; `k` bytes have been read into `acc`.  The value is kept in
      64 bits. */
  function ParseBackLen(s: Str, k: nat, acc: nat): (p: Parsed<nat>)
    ensures p.Ok? ==> |p.rest| < |s|
  {
    if s == [] || 7 * k >= 64 then Bad
    else
      var v := (acc + Weigh(s[0] % 128, k)) % 0x1_0000_0000_0000_0000;
      if s[0] < 128 then Ok(v, s[1..]) else ParseBackLen(s[1..], k + 1, v)
  }

  function ParseEntry(s: Str): (p: Parsed<Str>)
    ensures p.Ok? ==> |p.rest| < |s|
  {
    if s == [] || s[0] == 0xFF then Bad
    else
      var data := ParseData(s);
      if data.Bad? then Bad
      else
        var back := ParseBackLen(data.rest, 0, 0);
        if back.Bad? || back.value != |s| - |data.rest| then Bad else Ok(data.value, back.rest)
  }

  function ParseEntries(s: Str): Parsed<seq<Str>>
    decreases |s|
  {
    if s == [] || s[0] == 0xFF then Ok([], s)
    else
      var e := ParseEntry(s);
      if e.Bad? then Bad
      else
        var more := ParseEntries(e.rest);
        if more.Bad? then Bad else Ok([e.value] + more.value, more.rest)
  }

  /** The elements of a whole blob: the total size, the element count and the end marker must agree. */
  function ParseListpack(blob: Str): Parsed<seq<Str>> {
    if |blob| < 7 || FromLE(blob[..4]) != |blob| then Bad
    else
      var count, es := FromLE(blob[4..6]), ParseEntries(blob[6..]);
      if es.Bad? || es.rest != [0xFF] || (count != 0xFFFF && count != |es.value|) then Bad else Ok(es.value, [])
  }

  // ---- the encoder ------------------------------------------------------------------------------

  /** The length behind an element, low seven bits first. */
  function BackLen(n: nat): Str {
    if n < 128 then [n] else [128 + n % 128] + BackLen(n / 128)
  }

  function EntryBytes(e: Entry): Str
    requires e.Valid()
  {
    e.Data() + BackLen(|e.Data()|)
  }

  ghost predicate AllValid(es: seq<Entry>) { forall i :: 0 <= i < |es| ==> es[i].Valid() }

  function Body(es: seq<Entry>): Str
    requires forall i :: 0 <= i < |es| ==> es[i].Valid()
  {
    if es == [] then [] else EntryBytes(es[0]) + Body(es[1..])
  }

  function Texts(es: seq<Entry>): seq<Str> {
    if es == [] then [] else [es[0].Text()] + Texts(es[1..])
  }

  /** Total size, number of elements (0xFFFF when there are more), elements, end marker. */
  function Blob(body: Str, count: nat): Str {
    LE(4, 7 + |body|) + (LE(2, if count < 0xFFFF then count else 0xFFFF) + (body + [0xFF]))
  }

  // ---- reading undoes encoding --------------------------------------------------------------------

  lemma DataHead(e: Entry)
    requires e.Valid()
    ensures e.Data() != [] && e.Data()[0] != 0xFF
  {
  }

  lemma DataInverse(e: Entry, rest: Str)
    requires e.Valid()
    ensures e.Data() != [] && ParseData(e.Data() + rest) == Ok(e.Text(), rest)
  {
    DataHead(e);
    hide ParseData, Entry.Data, ToString;
    match e
    case U7(n) => U7Inverse(n, rest);
    case I13(n) => I13Inverse(n, rest);
    case I16(n) => WideInverse(e, 0xF1, n, 2, 0x8000, rest);
    case I24(n) => WideInverse(e, 0xF2, n, 3, 0x80_0000, rest);
    case I32(n) => WideInverse(e, 0xF3, n, 4, 0x8000_0000, rest);
    case I64(n) => WideInverse(e, 0xF4, n, 8, 0x8000_0000_0000_0000, rest);
    case Str6(t) => Str6Inverse(t, rest);
    case Str12(t) => Str12Inverse(t, rest);
    case Str32(t) => Str32Inverse(t, rest);
  }

  /** The header byte and what follows it. */
  lemma Headed(first: byte, body: Str, rest: Str)
    ensures ([first] + body + rest)[0] == first && ([first] + body + rest)[1..] == body + rest
  {
  }

  lemma U7Inverse(n: int, rest: Str)
    requires 0 <= n < 0x80
    ensures ParseData(U7(n).Data() + rest) == Ok(ToString(n), rest)
  {
    hide ToString;
    assert (U7(n).Data() + rest)[1..] == rest;
  }

  lemma I13Inverse(n: int, rest: Str)
    requires -0x1000 <= n < 0x1000
    ensures ParseData(I13(n).Data() + rest) == Ok(ToString(n), rest)
  {
    hide ToString, Signed;
    SignedInverse(n, 0x1000);
    var r: int := n % 0x2000;
    var s := I13(n).Data() + rest;
    assert s == [0xC0 + r / 256] + ([r % 256] + rest);
    assert s[1..] == [r % 256] + rest && s[1..][1..] == rest;
  }

  lemma WideInverse(e: Entry, tag: byte, n: int, size: nat, half: int, rest: Str)
    requires e.Valid()
    requires
      || (e == I16(n) && tag == 0xF1 && size == 2 && half == 0x8000)
      || (e == I24(n) && tag == 0xF2 && size == 3 && half == 0x80_0000)
      || (e == I32(n) && tag == 0xF3 && size == 4 && half == 0x8000_0000)
      || (e == I64(n) && tag == 0xF4 && size == 8 && half == 0x8000_0000_0000_0000)
    ensures ParseData(e.Data() + rest) == Ok(ToString(n), rest)
  {
    Pow256Values();
    hide ToString, ParseInt, LE, FromLE;
    IntInverse(n, size, half, rest);
    Headed(tag, LE(size, n % (2 * half)), rest);
    assert e.Data() == [tag] + LE(size, n % (2 * half));
  }

  lemma Str6Inverse(t: Str, rest: Str)
    requires |t| < 64
    ensures ParseData(Str6(t).Data() + rest) == Ok(t, rest)
  {
    TakeInverse(t, rest);
    Headed(0x80 + |t|, t, rest);
  }

  lemma Str12Inverse(t: Str, rest: Str)
    requires |t| < 4096
    ensures ParseData(Str12(t).Data() + rest) == Ok(t, rest)
  {
    var first: byte, low: byte := 0xE0 + |t| / 256, |t| % 256;
    Header12(|t|);
    assert Str12(t).Data() + rest == [first] + ([low] + (t + rest));
    hide Entry.Data;
    Small12(first, low, t, rest);
  }

  lemma Header12(n: nat)
    requires n < 4096
    ensures (0xE0 + n / 256) % 16 * 256 + n % 256 == n
  {
  }

  lemma Small12(first: byte, low: byte, t: Str, rest: Str)
    requires 0xE0 <= first < 0xF0
    requires var high: int, low': int := first % 16, low; high * 256 + low' == |t|
    ensures ParseData([first] + ([low] + (t + rest))) == Ok(t, rest)
  {
    TakeInverse(t, rest);
    var s := [first] + ([low] + (t + rest));
    assert s[1..] == [low] + (t + rest) && s[1..][1..] == t + rest;
  }

  lemma Str32Inverse(t: Str, rest: Str)
    requires |t| < 0x1_0000_0000
    ensures ParseData(Str32(t).Data() + rest) == Ok(t, rest)
  {
    Pow256Values();
    hide LE, FromLE;
    TakeInverse(t, rest);
    LERoundTrip(4, |t|);
    var size := LE(4, |t|);
    Headed(0xF0, size + t, rest);
    var body := size + t + rest;
    assert body[..4] == size && body[4..] == t + rest;
  }

  lemma {:induction false} BackLenInverse(n: nat, k: nat, acc: nat, rest: Str)
    requires k == 0 || n >= 1
    requires acc + Weigh(n, k) < 0x1_0000_0000_0000_0000
    ensures ParseBackLen(BackLen(n) + rest, k, acc) == Ok(acc + Weigh(n, k), rest)
    decreases n
  {
    BackLenFits(n, k);
    Septet(n, k);
    hide Weigh, ParseBackLen, Pow128;
    var v := acc + Weigh(n % 128, k);
    if n < 128 {
      ReadStep(n, rest, k, acc, v);
    } else {
      var more := BackLen(n / 128);
      assert BackLen(n) + rest == [128 + n % 128] + (more + rest);
      ReadStep(128 + n % 128, more + rest, k, acc, v);
      BackLenInverse(n / 128, k + 1, v, rest);
    }
  }

  lemma ReadStep(b: byte, rest: Str, k: nat, acc: nat, v: nat)
    requires 7 * k < 64 && v == acc + Weigh(b % 128, k) < 0x1_0000_0000_0000_0000
    ensures ParseBackLen([b] + rest, k, acc) == if b < 128 then Ok(v, rest) else ParseBackLen(rest, k + 1, v)
  {
    hide Weigh;
    assert ([b] + rest)[1..] == rest;
  }

  lemma Septet(n: nat, k: nat)
    ensures Weigh(n, k) == Weigh(n % 128, k) + Weigh(n / 128, k + 1)
    ensures n < 128 ==> n % 128 == n
  {
    var p, q, r := Pow128(k), n / 128, n % 128;
    Regroup(q, r, p);
  }

  lemma Regroup(q: nat, r: nat, p: nat)
    ensures (128 * q + r) * p == r * p + q * (128 * p)
  {
  }

  lemma BackLenFits(n: nat, k: nat)
    requires k == 0 || n >= 1
    requires Weigh(n, k) < 0x1_0000_0000_0000_0000
    ensures k <= 9
  {
    if k > 9 {
      Pow128Grows(10, k);
      assert Pow128(10) == 0x40_0000_0000_0000_0000;
      AtLeast(n, Pow128(k));
    }
  }

  lemma {:induction false} Pow128Grows(m: nat, n: nat)
    requires m <= n
    ensures Pow128(m) <= Pow128(n)
  {
    if m < n {
      Pow128Grows(m, n - 1);
    }
  }

  /** An element is the data followed by a length that matches it. */
  lemma EntryIs(data: Str, back: Str, rest: Str, text: Str, n: nat, after: Str)
    requires data != [] && data[0] != 0xFF
    requires ParseData(data + (back + rest)) == Ok(text, back + rest)
    requires ParseBackLen(back + rest, 0, 0) == Ok(n, after)
    ensures ParseEntry(data + back + rest) == if n == |data| then Ok(text, after) else Bad
  {
    hide ParseData, ParseBackLen;
    Assoc(data, back, rest);
  }

  lemma EntryInverse(e: Entry, rest: Str)
    requires e.Valid() && |e.Data()| < 0x1_0000_0000_0000_0000
    ensures ParseEntry(EntryBytes(e) + rest) == Ok(e.Text(), rest)
  {
    var data, back := e.Data(), BackLen(|e.Data()|);
    DataHead(e);
    DataInverse(e, back + rest);
    assert Weigh(|data|, 0) == |data|;
    BackLenInverse(|data|, 0, 0, rest);
    hide *;
    EntryIs(data, back, rest, e.Text(), |data|, rest);
    assert EntryBytes(e) == data + back by { EntryBytesAre(e); }
  }

  lemma EntryBytesAre(e: Entry)
    requires e.Valid()
    ensures EntryBytes(e) == e.Data() + BackLen(|e.Data()|)
  {
  }

  lemma {:induction false} EntriesInverse(es: seq<Entry>)
    requires AllValid(es) && |Body(es)| < 0x1_0000_0000_0000_0000
    ensures ParseEntries(Body(es) + [0xFF]) == Ok(Texts(es), [0xFF])
  {
    if es != [] {
      hide ParseEntry;
      var rest := Body(es[1..]) + [0xFF];
      EntryInverse(es[0], rest);
      EntriesInverse(es[1..]);
      DataHead(es[0]);
      Assoc(EntryBytes(es[0]), Body(es[1..]), [0xFF]);
    }
  }

  lemma BlobParts(body: Str, count: nat)
    requires 7 + |body| < 0x1_0000_0000
    ensures var blob := Blob(body, count);
      && |blob| == 7 + |body| && FromLE(blob[..4]) == |blob| && blob[6..] == body + [0xFF]
      && FromLE(blob[4..6]) == if count < 0xFFFF then count else 0xFFFF
  {
    Pow256Values();
    var c := if count < 0xFFFF then count else 0xFFFF;
    LERoundTrip(4, 7 + |body|);
    LERoundTrip(2, c);
    var blob := Blob(body, count);
    assert blob[..4] == LE(4, 7 + |body|) && blob[4..6] == LE(2, c) && blob[6..] == body + [0xFF];
  }

  /** Decoding an encoded listpack gives its elements back, and uses up the whole blob. */
  lemma ListpackInverse(es: seq<Entry>)
    requires AllValid(es) && 7 + |Body(es)| < 0x1_0000_0000
    ensures ParseListpack(Blob(Body(es), |es|)) == Ok(Texts(es), [])
  {
    BlobParts(Body(es), |es|);
    EntriesInverse(es);
    TextsLength(es);
  }

  lemma {:induction false} TextsLength(es: seq<Entry>)
    ensures |Texts(es)| == |es|
  {
    if es != [] {
      TextsLength(es[1..]);
    }
  }

  // ---- Redis's own listpacks ------------------------------------------------------------------------

  /** Redis writes the length behind an element for reading from the right: high seven bits first. */
  function RedisBackLen(n: nat): Str {
    if n < 128 then [n] else RedisBackLen(n / 128) + [128 + n % 128]
  }

  function RedisBody(es: seq<Entry>): Str
    requires forall i :: 0 <= i < |es| ==> es[i].Valid()
  {
    if es == [] then [] else es[0].Data() + RedisBackLen(|es[0].Data()|) + RedisBody(es[1..])
  }

  lemma {:induction false} RedisBackLenHead(n: nat)
    ensures RedisBackLen(n) != [] && RedisBackLen(n)[0] < 128
    ensures RedisBackLen(n)[0] == n <==> n < 128
    ensures RedisBackLen(n)[0] <= n && (n < 128 ==> |RedisBackLen(n)| == 1)
  {
    if n >= 128 {
      RedisBackLenHead(n / 128);
    }
  }

  lemma OneByte(s: Str)
    requires s != [] && s[0] < 128
    ensures ParseBackLen(s, 0, 0) == Ok(s[0], s[1..])
  {
  }

  /** The reader stops at the first byte, so it sees the right length only if there is just one. */
  lemma RedisEntryIff(e: Entry, rest: Str)
    requires e.Valid()
    ensures var s := e.Data() + RedisBackLen(|e.Data()|) + rest;
      if |e.Data()| < 128 then ParseEntry(s) == Ok(e.Text(), rest) else ParseEntry(s).Bad?
  {
    var data, back := e.Data(), RedisBackLen(|e.Data()|);
    DataHead(e);
    DataInverse(e, back + rest);
    RedisBackLenHead(|data|);
    OneByte(back + rest);
    EntryIs(data, back, rest, e.Text(), back[0], (back + rest)[1..]);
    if |data| < 128 {
      assert (back + rest)[1..] == rest;
    }
  }

  /** No element takes more than 127 bytes, its own length not counted. */
  ghost predicate AllShort(es: seq<Entry>)
    requires AllValid(es)
  {
    forall i :: 0 <= i < |es| ==> |es[i].Data()| < 128
  }

  lemma AllShortCons(es: seq<Entry>)
    requires AllValid(es) && es != []
    ensures AllValid(es[1..])
    ensures AllShort(es) <==> |es[0].Data()| < 128 && AllShort(es[1..])
  {
    assert forall i :: 1 <= i < |es| ==> es[i] == es[1..][i - 1];
    assert forall i :: 0 <= i < |es[1..]| ==> es[1..][i] == es[i + 1];
  }

  /** One turn of the loop over the elements. */
  lemma EntriesStep(s: Str)
    requires s != [] && s[0] != 0xFF
    ensures ParseEntries(s) ==
      var e := ParseEntry(s);
      if e.Bad? then Bad
      else var more := ParseEntries(e.rest); if more.Bad? then Bad else Ok([e.value] + more.value, more.rest)
  {
  }

  lemma {:induction false} RedisEntriesIff(es: seq<Entry>)
    requires AllValid(es)
    ensures var p := ParseEntries(RedisBody(es) + [0xFF]);
      if AllShort(es) then p == Ok(Texts(es), [0xFF]) else p.Bad?
  {
    if es != [] {
      AllShortCons(es);
      hide ParseEntry, ParseEntries, Entry.Data, AllShort, RedisBackLen;
      var e, rest := es[0], RedisBody(es[1..]) + [0xFF];
      var head := e.Data() + RedisBackLen(|e.Data()|);
      RedisEntriesIff(es[1..]);
      RedisEntryIff(e, rest);
      DataHead(e);
      Assoc(head, RedisBody(es[1..]), [0xFF]);
      EntriesStep(head + rest);
    }
  }

  /** A listpack written by Redis restores exactly when no element takes more than 127 bytes. */
  lemma RedisListpackIff(es: seq<Entry>)
    requires AllValid(es) && 7 + |RedisBody(es)| < 0x1_0000_0000
    ensures var p := ParseListpack(Blob(RedisBody(es), |es|));
      if AllShort(es) then p == Ok(Texts(es), []) else p.Bad?
  {
    hide AllShort, ParseEntries;
    BlobParts(RedisBody(es), |es|);
    RedisEntriesIff(es);
    TextsLength(es);
  }

  /** A string of 126 bytes takes 128 with its header, and is refused in Redis's layout. */
  lemma LongElementWitness()
    ensures var e := Str12(seq(126, _ => 97)); e.Valid() && ParseListpack(Blob(RedisBody([e]), 1)).Bad?
  {
    var e := Str12(seq(126, _ => 97));
    assert |e.Data()| == 128;
    assert RedisBackLen(128) == RedisBackLen(1) + [128] && |RedisBackLen(1)| == 1;
    assert RedisBody([e]) == e.Data() + RedisBackLen(128) + RedisBody([e][1..]);
    RedisListpackIff([e]);
    assert [e][0] == e;
  }

  // ---- the readers ------------------------------------------------------------------------------

  method DecodeBackLen(r: Reader) returns (ok: bool, value: nat)
    requires r.Valid()
    modifies r`pos
    ensures r.Valid() && ok == ParseBackLen(old(r.Rest()), 0, 0).Ok?
    ensures ok ==> Ok(value, r.Rest()) == ParseBackLen(old(r.Rest()), 0, 0)
  {
    hide Weigh;
    value := 0;
    var k := 0;
    while true
      invariant r.Valid() && ParseBackLen(r.Rest(), k, value) == ParseBackLen(old(r.Rest()), 0, 0)
      decreases |r.Rest()|
    {
      if 7 * k >= 64 {
        return false, 0;
      }
      var more, cur := r.ReadByte();
      if !more {
        return false, 0;
      }
      value := (value + Weigh(cur % 128, k)) % 0x1_0000_0000_0000_0000;
      if cur < 128 {
        return true, value;
      }
      k := k + 1;
    }
  }

  method ReadSmall(first: byte, r: Reader) returns (ok: bool, value: Str)
    requires first < 0xF0 && r.Valid()
    modifies r`pos
    ensures r.Valid() && ok == ParseSmall(first, old(r.Rest())).Ok?
    ensures ok ==> Ok(value, r.Rest()) == ParseSmall(first, old(r.Rest()))
  {
    if first < 0x80 {
      return true, ToString(first);
    } else if first < 0xC0 {
      ok, value := r.ReadBytes(first - 0x80);
    } else {
      var f: int := first;
      var low;
      value := [];
      ok, low := r.ReadByte();
      if ok {
        if first < 0xE0 {
          var raw := f % 32 * 256 + low;
          SignExtendIsSigned(raw, 0x1000);
          value := ToString(SignExtend(raw, 0x1000));
        } else {
          ok, value := r.ReadBytes(f % 16 * 256 + low);
        }
      }
    }
  }

  method ReadLarge(first: byte, r: Reader) returns (ok: bool, value: Str)
    requires first >= 0xF0 && r.Valid()
    modifies r`pos
    ensures r.Valid() && ok == ParseLarge(first, old(r.Rest())).Ok?
    ensures ok ==> Ok(value, r.Rest()) == ParseLarge(first, old(r.Rest()))
  {
    if first == 0xF0 {
      var bytes;
      value := [];
      ok, bytes := r.ReadBytes(4);
      if ok {
        ok, value := r.ReadBytes(FromLE(bytes));
      }
    } else if first == 0xF1 {
      ok, value := r.ReadInt(2, 0x8000);
    } else if first == 0xF2 {
      ok, value := ReadInt24(r);
    } else if first == 0xF3 {
      ok, value := r.ReadInt(4, 0x8000_0000);
    } else if first == 0xF4 {
      ok, value := r.ReadInt(8, 0x8000_0000_0000_0000);
    } else {
      return false, [];
    }
  }

  /** Three bytes, sign-extended by hand. */
  method ReadInt24(r: Reader) returns (ok: bool, value: Str)
    requires r.Valid()
    modifies r`pos
    ensures r.Valid() && ok == ParseInt(old(r.Rest()), 3, 0x80_0000).Ok?
    ensures ok ==> Ok(value, r.Rest()) == ParseInt(old(r.Rest()), 3, 0x80_0000)
  {
    var bytes;
    value := [];
    ok, bytes := r.ReadBytes(3);
    if ok {
      var b0: int, b1: int, b2: int := bytes[0], bytes[1], bytes[2];
      var raw := b0 + b1 * 0x100 + b2 * 0x1_0000;
      ThreeBytes(bytes);
      SignExtendIsSigned(raw, 0x80_0000);
      value := ToString(SignExtend(raw, 0x80_0000));
    }
  }

  lemma ThreeBytes(s: Str)
    requires |s| == 3
    ensures var b0: int, b1: int, b2: int := s[0], s[1], s[2]; FromLE(s) == b0 + b1 * 0x100 + b2 * 0x1_0000
  {
    assert s[1..][1..][1..] == [];
    assert FromLE(s[1..][1..]) == s[2];
  }

  method ReadListPackEntry(r: Reader) returns (ok: bool, value: Str)
    requires r.Valid()
    modifies r`pos
    ensures r.Valid() && ok == ParseEntry(old(r.Rest())).Ok?
    ensures ok ==> Ok(value, r.Rest()) == ParseEntry(old(r.Rest()))
  {
    hide ParseSmall, ParseLarge, ParseBackLen;
    value := [];
    var start := r.pos;
    var first;
    ok, first := r.ReadByte();
    if !ok || first == 0xFF {
      return false, [];
    }
    if first < 0xF0 {
      ok, value := ReadSmall(first, r);
    } else {
      ok, value := ReadLarge(first, r);
    }
    if ok {
      var dataLen := r.pos - start;
      var backLen;
      ok, backLen := DecodeBackLen(r);
      ok := ok && backLen == dataLen;
    }
  }

  method ReadListPackAll(blob: Str) returns (ok: bool, entries: seq<Str>)
    ensures ok == ParseListpack(blob).Ok?
    ensures ok ==> entries == ParseListpack(blob).value
  {
    entries := [];
    if |blob| < 7 {
      return false, [];
    }
    var r := new Reader(blob, 0);
    var _, total := r.ReadBytes(4);
    var _, count := r.ReadBytes(2);
    assert count == blob[4..6] && r.Rest() == blob[6..];
    if FromLE(total) != |blob| {
      return false, [];
    }
    ok, entries := ReadEntries(r);
    if !ok {
      return;
    }
    var marked, last := r.ReadByte();
    var left := r.Remaining();
    if !marked || last != 0xFF || left != 0 {
      return false, [];
    }
    if FromLE(count) != 0xFFFF && FromLE(count) != |entries| {
      return false, [];
    }
  }

  method ReadEntries(r: Reader) returns (ok: bool, entries: seq<Str>)
    requires r.Valid()
    modifies r`pos
    ensures r.Valid() && ok == ParseEntries(old(r.Rest())).Ok?
    ensures ok ==> entries == ParseEntries(old(r.Rest())).value && r.Rest() == ParseEntries(old(r.Rest())).rest
  {
    hide ParseEntry;
    entries := [];
    ghost var whole := ParseEntries(r.Rest());
    while r.pos < |r.data| && r.data[r.pos] != 0xFF
      invariant r.Valid()
      invariant var more := ParseEntries(r.Rest());
        if more.Bad? then whole.Bad?
        else whole.Ok? && whole.value == entries + more.value && whole.rest == more.rest
      decreases |r.Rest()|
    {
      var value;
      ok, value := ReadListPackEntry(r);
      if !ok {
        return;
      }
      entries := entries + [value];
    }
    ok := true;
  }
}
