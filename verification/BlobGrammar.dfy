/** Which blobs are accepted (src/redis_rdb_restore.cpp:426-876): the inverse laws say that encodings are read back, and
    here nothing but an encoding is read.  What the reader does not look at, or does not need in its shortest form, is
    free: the lengths of preceding ziplist elements, and how a listpack spells the length behind an element. */
module BlobGrammar {
  import opened Bytes
  import opened Rdb
  import Decimal
  import Intset
  import Listpack
  import Ziplist

  // ---- numbers ------------------------------------------------------------------------------------

  lemma {:induction false} LEOfFrom(s: Str)
    ensures LE(|s|, FromLE(s)) == s
  {
    if s != [] {
      LEOfFrom(s[1..]);
      var low: int, high := s[0], FromLE(s[1..]);
      Digits256(high, low);
      assert FromLE(s) == high * 256 + low;
      hide FromLE;
      assert LE(|s|, FromLE(s)) == [FromLE(s) % 256] + LE(|s| - 1, FromLE(s) / 256);
      hide LE;
      assert s == [s[0]] + s[1..];
    }
  }

  lemma Digits256(high: int, low: int)
    requires 0 <= low < 256
    ensures (high * 256 + low) / 256 == high && (high * 256 + low) % 256 == low
  {
  }

  lemma {:induction false} BEOfFrom(s: Str)
    ensures BE(|s|, FromBE(s)) == s
  {
    if s != [] {
      var n := |s| - 1;
      BEOfFrom(s[..n]);
      var low: int, high := s[n], FromBE(s[..n]);
      Digits256(high, low);
      assert FromBE(s) == high * 256 + low;
      hide FromBE;
      assert BE(|s|, FromBE(s)) == BE(n, FromBE(s) / 256) + [FromBE(s) % 256];
      hide BE;
      assert s == s[..n] + [s[n]];
    }
  }

  lemma InThree(s: Str, a: nat, b: nat)
    requires a <= b <= |s|
    ensures s == s[..a] + (s[a..b] + s[b..])
  {
  }

  /** Whatever reads as an integer is the two's complement of that integer. */
  lemma IntOnly(s: Str, size: nat, half: nat) returns (n: int)
    requires ParseInt(s, size, half).Ok? && half > 0 && Pow256(size) == 2 * half
    ensures 0 <= n + half < 2 * half && ParseInt(s, size, half).value == Decimal.ToString(n)
    ensures s == LE(size, n % (2 * half)) + ParseInt(s, size, half).rest
  {
    hide Decimal.ToString, LE, FromLE, Pow256;
    var bytes := s[..size];
    var v := FromLE(bytes);
    n := Signed(v, half);
    FromLEBound(bytes);
    LEOfFrom(bytes);
    SignedModulo(v, half);
  }

  lemma SignedModulo(v: nat, half: nat)
    requires half > 0 && v < 2 * half
    ensures 0 <= Signed(v, half) + half < 2 * half && Signed(v, half) % (2 * half) == v
  {
    SignedInverse(Signed(v, half), half);
  }

  // ---- intsets ------------------------------------------------------------------------------------

  lemma {:induction false} IntsOnly(s: Str, size: nat, count: nat) returns (ns: seq<int>)
    requires size in {2, 4, 8} && Intset.ParseInts(s, size, count).Ok?
    ensures Intset.InRange(ns, size) && |ns| == count
    ensures s == Intset.Body(ns, size) + Intset.ParseInts(s, size, count).rest
    ensures Intset.ParseInts(s, size, count).value == Intset.Texts(ns)
    decreases count
  {
    ns := [];
    if count > 0 {
      Intset.HalfIsHalf(size);
      hide ParseInt, LE, Decimal.ToString, Intset.Half, Pow256;
      var n := IntOnly(s, size, Intset.Half(size));
      var rest := ParseInt(s, size, Intset.Half(size)).rest;
      var more := IntsOnly(rest, size, count - 1);
      ns := [n] + more;
      assert ns[1..] == more;
      var behind := Intset.ParseInts(rest, size, count - 1).rest;
      Assoc(LE(size, n % (2 * Intset.Half(size))), Intset.Body(more, size), behind);
    }
  }

  /** A blob is read as an intset exactly when it is one. */
  lemma IntsetIff(blob: Str)
    ensures Intset.ParseIntset(blob).Ok? <==>
      exists ns, size :: Intset.InRange(ns, size) && |ns| < 0x1_0000_0000 && blob == Intset.Blob(ns, size)
  {
    if Intset.ParseIntset(blob).Ok? {
      var ns, size := IntsetOnly(blob);
    }
    if ns, size :| Intset.InRange(ns, size) && |ns| < 0x1_0000_0000 && blob == Intset.Blob(ns, size) {
      Intset.IntsetInverse(ns, size);
    }
  }

  lemma IntsetOnly(blob: Str) returns (ns: seq<int>, size: nat)
    requires Intset.ParseIntset(blob).Ok?
    ensures Intset.InRange(ns, size) && |ns| < 0x1_0000_0000 && blob == Intset.Blob(ns, size)
  {
    Pow256Values();
    FromLEBound(blob[..4]);
    FromLEBound(blob[4..8]);
    LEOfFrom(blob[..4]);
    LEOfFrom(blob[4..8]);
    size := FromLE(blob[..4]);
    var count := FromLE(blob[4..8]);
    ns := IntsOnly(blob[8..], size, count);
    hide LE, FromLE, Intset.Body, Intset.ParseInts, Intset.Texts, Intset.InRange;
    Intset.BodyLength(ns, size);
    var rest := Intset.ParseInts(blob[8..], size, count).rest;
    assert |rest| == 0;
    InThree(blob, 4, 8);
  }

  // ---- ziplists -----------------------------------------------------------------------------------

  /** A length of the preceding element, in either form; its value does not matter. */
  predicate IsPrev(x: Str) { (|x| == 1 && x[0] < 254) || (|x| == 5 && x[0] == 254) }

  ghost predicate Linked(prevs: seq<Str>, es: seq<Ziplist.Entry>) {
    && |prevs| == |es|
    && forall i :: 0 <= i < |es| ==> IsPrev(prevs[i]) && es[i].Valid()
  }

  ghost function ZipBody(prevs: seq<Str>, es: seq<Ziplist.Entry>): Str
    requires Linked(prevs, es)
  {
    if es == [] then [] else prevs[0] + es[0].Data() + ZipBody(prevs[1..], es[1..])
  }

  lemma SkipIff(s: Str, x: Str)
    ensures IsPrev(x) ==> Ziplist.SkipPrev(x + s) == Ok(x, s)
    ensures Ziplist.SkipPrev(s).Ok? ==> IsPrev(Ziplist.SkipPrev(s).value)
    ensures Ziplist.SkipPrev(s).Ok? ==> s == Ziplist.SkipPrev(s).value + Ziplist.SkipPrev(s).rest
  {
    if IsPrev(x) {
      TakeInverse(x, s);
    }
  }

  /** The value of a ziplist element is one of the nine forms. */
  lemma ZipValueOnly(s: Str) returns (e: Ziplist.Entry)
    requires Ziplist.ParseValue(s).Ok?
    ensures e.Valid() && Ziplist.ParseValue(s).value == e.Text()
    ensures s == e.Data() + Ziplist.ParseValue(s).rest
  {
    if s[0] <= 0x80 {
      e := ZipStringOnly(s);
    } else {
      e := ZipNumberOnly(s);
    }
  }

  lemma ZipStringOnly(s: Str) returns (e: Ziplist.Entry)
    requires s != [] && s[0] <= 0x80 && Ziplist.ParseValue(s).Ok?
    ensures e.Valid() && Ziplist.ParseValue(s).value == e.Text()
    ensures s == e.Data() + Ziplist.ParseValue(s).rest
  {
    if s[0] < 0x40 {
      var t := Ziplist.ParseValue(s).value;
      e := Ziplist.Str6(t);
      Prefixed(s, t, Ziplist.ParseValue(s).rest);
    } else if s[0] < 0x80 {
      e := Zip14Only(s);
    } else {
      e := Zip32Only(s);
    }
  }

  lemma Zip14Only(s: Str) returns (e: Ziplist.Entry)
    requires s != [] && 0x40 <= s[0] < 0x80 && Ziplist.ParseValue(s).Ok?
    ensures e.Valid() && Ziplist.ParseValue(s).value == e.Text()
    ensures s == e.Data() + Ziplist.ParseValue(s).rest
  {
    var t, rest := Ziplist.ParseValue(s).value, Ziplist.ParseValue(s).rest;
    var f: int, low: int := s[0], s[1];
    Digits256(f - 0x40, low);
    assert f % 64 == f - 0x40;
    assert |t| == (f - 0x40) * 256 + low && s[1..][1..] == t + rest;
    hide Ziplist.ParseValue;
    e := Ziplist.Str14(t);
    assert e.Data() == [s[0]] + ([s[1]] + t);
    hide *;
    TwoBytes(s, t + rest);
    Assoc([s[1]], t, rest);
    Assoc([s[0]], [s[1]] + t, rest);
  }

  lemma TwoBytes(s: Str, tail: Str)
    requires |s| >= 2 && s[1..][1..] == tail
    ensures s == [s[0]] + ([s[1]] + tail)
  {
  }

  lemma Zip32Only(s: Str) returns (e: Ziplist.Entry)
    requires s != [] && s[0] == 0x80 && Ziplist.ParseValue(s).Ok?
    ensures e.Valid() && Ziplist.ParseValue(s).value == e.Text()
    ensures s == e.Data() + Ziplist.ParseValue(s).rest
  {
    Pow256Values();
    hide BE, FromBE;
    var t, rest := Ziplist.ParseValue(s).value, Ziplist.ParseValue(s).rest;
    var size := s[1..][..4];
    BEOfFrom(size);
    FromBEBound(size);
    assert |t| == FromBE(size) && s[1..] == size + (t + rest);
    hide Ziplist.ParseValue;
    e := Ziplist.Str32(t);
    Assoc(size, t, rest);
    Prefixed(s, size + t, rest);
  }

  lemma ZipNumberOnly(s: Str) returns (e: Ziplist.Entry)
    requires s != [] && s[0] > 0x80 && Ziplist.ParseValue(s).Ok?
    ensures e.Valid() && Ziplist.ParseValue(s).value == e.Text()
    ensures s == e.Data() + Ziplist.ParseValue(s).rest
  {
    Pow256Values();
    hide ParseInt, LE, Decimal.ToString, Pow256;
    var rest := s[1..];
    if s[0] == 0xC0 {
      var n := IntOnly(rest, 2, 0x8000);
      e := Ziplist.I16(n);
      Prefixed(s, LE(2, n % 0x1_0000), ParseInt(rest, 2, 0x8000).rest);
    } else if s[0] == 0xD0 {
      var n := IntOnly(rest, 4, 0x8000_0000);
      e := Ziplist.I32(n);
      Prefixed(s, LE(4, n % 0x1_0000_0000), ParseInt(rest, 4, 0x8000_0000).rest);
    } else if s[0] == 0xE0 {
      var n := IntOnly(rest, 8, 0x8000_0000_0000_0000);
      e := Ziplist.I64(n);
      Prefixed(s, LE(8, n % 0x1_0000_0000_0000_0000), ParseInt(rest, 8, 0x8000_0000_0000_0000).rest);
    } else if s[0] == 0xF0 {
      var n := IntOnly(rest, 3, 0x80_0000);
      e := Ziplist.I24(n);
      Prefixed(s, LE(3, n % 0x100_0000), ParseInt(rest, 3, 0x80_0000).rest);
    } else if s[0] == 0xFE {
      var n := IntOnly(rest, 1, 0x80);
      e := Ziplist.I8(n);
      Prefixed(s, LE(1, n % 0x100), ParseInt(rest, 1, 0x80).rest);
    } else {
      e := Ziplist.I4(s[0] - 0xF1);
      assert s == [s[0]] + rest;
    }
  }

  lemma Prefixed(s: Str, body: Str, rest: Str)
    requires s != [] && s[1..] == body + rest
    ensures s == [s[0]] + body + rest
  {
  }

  lemma ZipEntryOnly(s: Str) returns (prev: Str, e: Ziplist.Entry)
    requires Ziplist.ParseEntry(s).Ok?
    ensures IsPrev(prev) && e.Valid() && Ziplist.ParseEntry(s).value == e.Text()
    ensures s == prev + e.Data() + Ziplist.ParseEntry(s).rest
  {
    hide Ziplist.ParseValue, Ziplist.SkipPrev, Ziplist.Entry.Data, Ziplist.Entry.Text, Ziplist.Entry.Valid, IsPrev;
    SkipIff(s, []);
    prev := Ziplist.SkipPrev(s).value;
    e := ZipValueOnly(Ziplist.SkipPrev(s).rest);
    Assoc(prev, e.Data(), Ziplist.ParseEntry(s).rest);
  }

  lemma ZipCons(prev: Str, e: Ziplist.Entry, prevs: seq<Str>, es: seq<Ziplist.Entry>)
    requires IsPrev(prev) && e.Valid() && Linked(prevs, es)
    ensures Linked([prev] + prevs, [e] + es)
    ensures ZipBody([prev] + prevs, [e] + es) == prev + e.Data() + ZipBody(prevs, es)
    ensures Ziplist.Texts([e] + es) == [e.Text()] + Ziplist.Texts(es)
  {
    assert ([prev] + prevs)[1..] == prevs && ([e] + es)[1..] == es;
  }

  lemma ZipUnfold(s: Str)
    requires Ziplist.ParseEntries(s).Ok? && s != [] && s[0] != 0xFF
    ensures Ziplist.ParseEntry(s).Ok? && Ziplist.ParseEntries(Ziplist.ParseEntry(s).rest).Ok?
    ensures var e, more := Ziplist.ParseEntry(s), Ziplist.ParseEntries(Ziplist.ParseEntry(s).rest);
      |e.rest| < |s| && Ziplist.ParseEntries(s) == Ok([e.value] + more.value, more.rest)
  {
  }

  lemma {:induction false} ZipEntriesOnly(s: Str) returns (prevs: seq<Str>, es: seq<Ziplist.Entry>)
    requires Ziplist.ParseEntries(s).Ok?
    ensures Linked(prevs, es) && Ziplist.ParseEntries(s).value == Ziplist.Texts(es)
    ensures s == ZipBody(prevs, es) + Ziplist.ParseEntries(s).rest
    decreases |s|
  {
    if s == [] || s[0] == 0xFF {
      prevs, es := [], [];
    } else {
      hide *;
      ZipUnfold(s);
      var prev, e := ZipEntryOnly(s);
      var morePrevs, more := ZipEntriesOnly(Ziplist.ParseEntry(s).rest);
      prevs, es := [prev] + morePrevs, [e] + more;
      ZipCons(prev, e, morePrevs, more);
      Assoc(prev + e.Data(), ZipBody(morePrevs, more), Ziplist.ParseEntries(s).rest);
    }
  }

  lemma ZipEntryRead(prev: Str, e: Ziplist.Entry, rest: Str)
    requires IsPrev(prev) && e.Valid()
    ensures Ziplist.ParseEntry(prev + e.Data() + rest) == Ok(e.Text(), rest) && prev[0] != 0xFF
  {
    SkipIff(e.Data() + rest, prev);
    Assoc(prev, e.Data(), rest);
    hide Ziplist.ParseValue, Ziplist.SkipPrev, Ziplist.Entry.Data, Ziplist.Entry.Text;
    Ziplist.ValueInverse(e, rest);
  }

  lemma ZipFold(x: Str, text: Str, rest: Str)
    requires x != [] && x[0] != 0xFF && Ziplist.ParseEntry(x + rest) == Ok(text, rest)
    requires Ziplist.ParseEntries(rest).Ok?
    ensures var more := Ziplist.ParseEntries(rest); Ziplist.ParseEntries(x + rest) == Ok([text] + more.value, more.rest)
  {
    hide Ziplist.ParseEntry;
  }

  lemma {:induction false} ZipEntriesRead(prevs: seq<Str>, es: seq<Ziplist.Entry>)
    requires Linked(prevs, es)
    ensures Ziplist.ParseEntries(ZipBody(prevs, es) + [0xFF]) == Ok(Ziplist.Texts(es), [0xFF])
    decreases |es|
  {
    if es != [] {
      var more, x := ZipBody(prevs[1..], es[1..]), prevs[0] + es[0].Data();
      assert ZipBody(prevs, es) == x + more && Ziplist.Texts(es) == [es[0].Text()] + Ziplist.Texts(es[1..]);
      assert IsPrev(prevs[0]) && es[0].Valid() && Linked(prevs[1..], es[1..]);
      hide *;
      ZipEntriesRead(prevs[1..], es[1..]);
      ZipEntryRead(prevs[0], es[0], more + [0xFF]);
      PrevNotEmpty(prevs[0]);
      ZipFold(x, es[0].Text(), more + [0xFF]);
      Assoc(x, more, [0xFF]);
    }
  }

  lemma PrevNotEmpty(x: Str)
    requires IsPrev(x)
    ensures x != []
  {
  }

  ghost predicate IsZiplist(blob: Str, ignored: Str, prevs: seq<Str>, es: seq<Ziplist.Entry>) {
    |ignored| == 6 && Linked(prevs, es) && |blob| < 0x1_0000_0000 && blob == Ziplist.Blob(ZipBody(prevs, es), ignored)
  }

  lemma IsZiplistRead(blob: Str, ignored: Str, prevs: seq<Str>, es: seq<Ziplist.Entry>)
    requires IsZiplist(blob, ignored, prevs, es)
    ensures Ziplist.ParseZiplist(blob) == Ok(Ziplist.Texts(es), [])
  {
    Pow256Values();
    var body := ZipBody(prevs, es);
    ZipEntriesRead(prevs, es);
    Ziplist.BlobParts(body, ignored);
    LERoundTrip(4, 11 + |body|);
    hide LE, FromLE, Ziplist.ParseEntries, Ziplist.Texts, Ziplist.Blob, ZipBody;
  }

  lemma ZiplistOnly(blob: Str) returns (ignored: Str, prevs: seq<Str>, es: seq<Ziplist.Entry>)
    requires Ziplist.ParseZiplist(blob).Ok?
    ensures IsZiplist(blob, ignored, prevs, es)
  {
    Pow256Values();
    FromLEBound(blob[..4]);
    LEOfFrom(blob[..4]);
    prevs, es := ZipEntriesOnly(blob[10..]);
    ignored := blob[4..10];
    hide LE, FromLE, Ziplist.ParseEntries, Ziplist.Texts, ZipBody;
    InThree(blob, 4, 10);
    assert |blob[10..]| == |ZipBody(prevs, es)| + 1;
  }

  /** A blob is read as a ziplist exactly when it is one, whatever its elements say about what precedes them. */
  lemma ZiplistIff(blob: Str)
    ensures Ziplist.ParseZiplist(blob).Ok? <==> exists ignored, prevs, es :: IsZiplist(blob, ignored, prevs, es)
  {
    if Ziplist.ParseZiplist(blob).Ok? {
      var ignored, prevs, es := ZiplistOnly(blob);
    }
    if ignored, prevs, es :| IsZiplist(blob, ignored, prevs, es) {
      IsZiplistRead(blob, ignored, prevs, es);
    }
  }

  // ---- listpacks ----------------------------------------------------------------------------------

  /** The bytes spell the length n; shorter spellings may exist. */
  predicate IsBack(back: Str, n: nat) { Listpack.ParseBackLen(back, 0, 0) == Ok(n, []) }

  ghost predicate Closed(backs: seq<Str>, es: seq<Listpack.Entry>) {
    && |backs| == |es| && Listpack.AllValid(es)
    && forall i :: 0 <= i < |es| ==> IsBack(backs[i], |es[i].Data()|)
  }

  ghost function PackBody(backs: seq<Str>, es: seq<Listpack.Entry>): Str
    requires Closed(backs, es)
  {
    if es == [] then [] else es[0].Data() + backs[0] + PackBody(backs[1..], es[1..])
  }

  lemma {:induction false} BackExtends(s: Str, k: nat, acc: nat, t: Str)
    requires Listpack.ParseBackLen(s, k, acc).Ok?
    ensures var p := Listpack.ParseBackLen(s, k, acc); Listpack.ParseBackLen(s + t, k, acc) == Ok(p.value, p.rest + t)
    decreases |s|
  {
    hide Listpack.Weigh;
    assert (s + t)[1..] == s[1..] + t;
    if s[0] >= 128 {
      var v := (acc + Listpack.Weigh(s[0] % 128, k)) % 0x1_0000_0000_0000_0000;
      BackExtends(s[1..], k + 1, v, t);
    }
  }

  lemma {:induction false} BackOnly(s: Str, k: nat, acc: nat) returns (back: Str)
    requires Listpack.ParseBackLen(s, k, acc).Ok?
    ensures var p := Listpack.ParseBackLen(s, k, acc);
      back != [] && s == back + p.rest && Listpack.ParseBackLen(back, k, acc) == Ok(p.value, [])
    decreases |s|
  {
    hide Listpack.Weigh;
    if s[0] < 128 {
      back := [s[0]];
    } else {
      var v := (acc + Listpack.Weigh(s[0] % 128, k)) % 0x1_0000_0000_0000_0000;
      var more := BackOnly(s[1..], k + 1, v);
      back := [s[0]] + more;
      assert back[1..] == more;
    }
  }

  /** The data of a listpack element is one of the nine forms. */
  lemma PackDataOnly(s: Str) returns (e: Listpack.Entry)
    requires s != [] && Listpack.ParseData(s).Ok?
    ensures e.Valid() && Listpack.ParseData(s).value == e.Text()
    ensures s == e.Data() + Listpack.ParseData(s).rest
  {
    if s[0] < 0xF0 {
      e := PackSmallOnly(s);
    } else {
      e := PackLargeOnly(s);
    }
  }

  lemma PackSmallOnly(s: Str) returns (e: Listpack.Entry)
    requires s != [] && s[0] < 0xF0 && Listpack.ParseData(s).Ok?
    ensures e.Valid() && Listpack.ParseData(s).value == e.Text()
    ensures s == e.Data() + Listpack.ParseData(s).rest
  {
    hide Decimal.ToString;
    var p := Listpack.ParseData(s);
    if s[0] < 0x80 {
      e := Listpack.U7(s[0]);
      assert s == [s[0]] + p.rest;
    } else if s[0] < 0xC0 {
      e := Listpack.Str6(p.value);
      Prefixed(s, p.value, p.rest);
    } else if s[0] < 0xE0 {
      e := Pack13Only(s);
    } else {
      e := Pack12Only(s);
    }
  }

  lemma Pack13Only(s: Str) returns (e: Listpack.Entry)
    requires s != [] && 0xC0 <= s[0] < 0xE0 && Listpack.ParseData(s).Ok?
    ensures e.Valid() && Listpack.ParseData(s).value == e.Text()
    ensures s == e.Data() + Listpack.ParseData(s).rest
  {
    hide Decimal.ToString, Signed;
    var f: int, low: int := s[0], s[1];
    Digits256(f - 0xC0, low);
    var v: nat := (f - 0xC0) * 256 + low;
    assert f % 32 == f - 0xC0;
    var rest := Listpack.ParseData(s).rest;
    assert Listpack.ParseData(s).value == Decimal.ToString(Signed(v, 0x1000)) && rest == s[1..][1..];
    hide Listpack.ParseData;
    SignedModulo(v, 0x1000);
    e := Listpack.I13(Signed(v, 0x1000));
    TwoBytes(s, rest);
    assert e.Data() == [s[0], s[1]];
  }

  lemma Pack12Only(s: Str) returns (e: Listpack.Entry)
    requires s != [] && 0xE0 <= s[0] < 0xF0 && Listpack.ParseData(s).Ok?
    ensures e.Valid() && Listpack.ParseData(s).value == e.Text()
    ensures s == e.Data() + Listpack.ParseData(s).rest
  {
    var t, rest := Listpack.ParseData(s).value, Listpack.ParseData(s).rest;
    var f: int, low: int := s[0], s[1];
    Digits256(f - 0xE0, low);
    assert f % 16 == f - 0xE0;
    assert |t| == (f - 0xE0) * 256 + low && s[1..][1..] == t + rest;
    hide Listpack.ParseData;
    e := Listpack.Str12(t);
    assert e.Data() == [s[0]] + ([s[1]] + t);
    hide *;
    TwoBytes(s, t + rest);
    Assoc([s[1]], t, rest);
    Assoc([s[0]], [s[1]] + t, rest);
  }

  lemma PackLargeOnly(s: Str) returns (e: Listpack.Entry)
    requires s != [] && s[0] >= 0xF0 && Listpack.ParseData(s).Ok?
    ensures e.Valid() && Listpack.ParseData(s).value == e.Text()
    ensures s == e.Data() + Listpack.ParseData(s).rest
  {
    Pow256Values();
    hide ParseInt, LE, FromLE, Decimal.ToString, Pow256;
    var rest := s[1..];
    if s[0] == 0xF0 {
      var t, behind := Listpack.ParseData(s).value, Listpack.ParseData(s).rest;
      e := Listpack.Str32(t);
      LEOfFrom(rest[..4]);
      FromLEBound(rest[..4]);
      assert rest == rest[..4] + t + behind;
      Prefixed(s, rest[..4] + t, behind);
    } else if s[0] == 0xF1 {
      var n := IntOnly(rest, 2, 0x8000);
      e := Listpack.I16(n);
      Prefixed(s, LE(2, n % 0x1_0000), ParseInt(rest, 2, 0x8000).rest);
    } else if s[0] == 0xF2 {
      var n := IntOnly(rest, 3, 0x80_0000);
      e := Listpack.I24(n);
      Prefixed(s, LE(3, n % 0x100_0000), ParseInt(rest, 3, 0x80_0000).rest);
    } else if s[0] == 0xF3 {
      var n := IntOnly(rest, 4, 0x8000_0000);
      e := Listpack.I32(n);
      Prefixed(s, LE(4, n % 0x1_0000_0000), ParseInt(rest, 4, 0x8000_0000).rest);
    } else {
      var n := IntOnly(rest, 8, 0x8000_0000_0000_0000);
      e := Listpack.I64(n);
      Prefixed(s, LE(8, n % 0x1_0000_0000_0000_0000), ParseInt(rest, 8, 0x8000_0000_0000_0000).rest);
    }
  }

  lemma PackEntryOnly(s: Str) returns (e: Listpack.Entry, back: Str)
    requires Listpack.ParseEntry(s).Ok?
    ensures e.Valid() && IsBack(back, |e.Data()|) && Listpack.ParseEntry(s).value == e.Text()
    ensures s == e.Data() + back + Listpack.ParseEntry(s).rest
  {
    hide Listpack.ParseData, Listpack.ParseBackLen, Listpack.Entry.Data, Listpack.Entry.Text, Listpack.Entry.Valid;
    e := PackDataOnly(s);
    back := BackOnly(Listpack.ParseData(s).rest, 0, 0);
    Assoc(e.Data(), back, Listpack.ParseEntry(s).rest);
  }

  lemma PackEntryRead(e: Listpack.Entry, back: Str, rest: Str)
    requires e.Valid() && IsBack(back, |e.Data()|)
    ensures e.Data() != [] && e.Data()[0] != 0xFF
    ensures Listpack.ParseEntry(e.Data() + back + rest) == Ok(e.Text(), rest)
  {
    Listpack.DataHead(e);
    hide Listpack.ParseData, Listpack.ParseBackLen, Listpack.Entry.Data, Listpack.Entry.Text, Listpack.Entry.Valid;
    Listpack.DataInverse(e, back + rest);
    BackExtends(back, 0, 0, rest);
    Assoc(e.Data(), back, rest);
    assert [] + rest == rest;
  }

  lemma PackCons(e: Listpack.Entry, back: Str, backs: seq<Str>, es: seq<Listpack.Entry>)
    requires e.Valid() && IsBack(back, |e.Data()|) && Closed(backs, es)
    ensures Closed([back] + backs, [e] + es)
    ensures PackBody([back] + backs, [e] + es) == e.Data() + back + PackBody(backs, es)
    ensures Listpack.Texts([e] + es) == [e.Text()] + Listpack.Texts(es)
  {
    hide IsBack, Listpack.Entry.Data, Listpack.Entry.Text, Listpack.Entry.Valid;
    assert ([back] + backs)[1..] == backs && ([e] + es)[1..] == es;
  }

  lemma PackUnfold(s: Str)
    requires Listpack.ParseEntries(s).Ok? && s != [] && s[0] != 0xFF
    ensures Listpack.ParseEntry(s).Ok? && Listpack.ParseEntries(Listpack.ParseEntry(s).rest).Ok?
    ensures var e, more := Listpack.ParseEntry(s), Listpack.ParseEntries(Listpack.ParseEntry(s).rest);
      |e.rest| < |s| && Listpack.ParseEntries(s) == Ok([e.value] + more.value, more.rest)
  {
    hide Listpack.ParseEntry;
  }

  lemma PackFold(x: Str, text: Str, rest: Str)
    requires x != [] && x[0] != 0xFF && Listpack.ParseEntry(x + rest) == Ok(text, rest)
    requires Listpack.ParseEntries(rest).Ok?
    ensures var more := Listpack.ParseEntries(rest);
      Listpack.ParseEntries(x + rest) == Ok([text] + more.value, more.rest)
  {
    hide Listpack.ParseEntry;
  }

  lemma {:induction false} PackEntriesOnly(s: Str) returns (backs: seq<Str>, es: seq<Listpack.Entry>)
    requires Listpack.ParseEntries(s).Ok?
    ensures Closed(backs, es) && Listpack.ParseEntries(s).value == Listpack.Texts(es)
    ensures s == PackBody(backs, es) + Listpack.ParseEntries(s).rest
    decreases |s|
  {
    if s == [] || s[0] == 0xFF {
      backs, es := [], [];
    } else {
      hide *;
      PackUnfold(s);
      var e, back := PackEntryOnly(s);
      var moreBacks, more := PackEntriesOnly(Listpack.ParseEntry(s).rest);
      backs, es := [back] + moreBacks, [e] + more;
      PackCons(e, back, moreBacks, more);
      Assoc(e.Data() + back, PackBody(moreBacks, more), Listpack.ParseEntries(s).rest);
    }
  }

  lemma {:induction false} PackEntriesRead(backs: seq<Str>, es: seq<Listpack.Entry>)
    requires Closed(backs, es)
    ensures Listpack.ParseEntries(PackBody(backs, es) + [0xFF]) == Ok(Listpack.Texts(es), [0xFF])
    ensures |Listpack.Texts(es)| == |es|
    decreases |es|
  {
    if es != [] {
      var more, x := PackBody(backs[1..], es[1..]), es[0].Data() + backs[0];
      assert PackBody(backs, es) == x + more && Listpack.Texts(es) == [es[0].Text()] + Listpack.Texts(es[1..]);
      assert IsBack(backs[0], |es[0].Data()|) && es[0].Valid() && Closed(backs[1..], es[1..]);
      hide *;
      PackEntriesRead(backs[1..], es[1..]);
      PackEntryRead(es[0], backs[0], more + [0xFF]);
      PackFold(x, es[0].Text(), more + [0xFF]);
      Assoc(x, more, [0xFF]);
    }
  }

  /** The count in the header is the number of elements, or the mark for "more than fits". */
  ghost predicate IsListpack(blob: Str, count: nat, backs: seq<Str>, es: seq<Listpack.Entry>) {
    && Closed(backs, es) && |blob| < 0x1_0000_0000 && (count == |es| < 0x1_0000 || count == 0xFFFF)
    && blob == LE(4, |blob|) + (LE(2, count) + (PackBody(backs, es) + [0xFF]))
  }

  lemma IsListpackRead(blob: Str, count: nat, backs: seq<Str>, es: seq<Listpack.Entry>)
    requires IsListpack(blob, count, backs, es)
    ensures Listpack.ParseListpack(blob) == Ok(Listpack.Texts(es), [])
  {
    Pow256Values();
    var body := PackBody(backs, es) + [0xFF];
    PackEntriesRead(backs, es);
    LERoundTrip(4, |blob|);
    LERoundTrip(2, count);
    hide LE, FromLE, Listpack.ParseEntries, Listpack.Texts, PackBody, Closed;
    assert |blob| == 6 + |body|;
    assert blob[..4] == LE(4, |blob|) && blob[4..6] == LE(2, count) && blob[6..] == body;
  }

  lemma ListpackOnly(blob: Str) returns (count: nat, backs: seq<Str>, es: seq<Listpack.Entry>)
    requires Listpack.ParseListpack(blob).Ok?
    ensures IsListpack(blob, count, backs, es)
  {
    Pow256Values();
    FromLEBound(blob[..4]);
    FromLEBound(blob[4..6]);
    LEOfFrom(blob[..4]);
    LEOfFrom(blob[4..6]);
    count := FromLE(blob[4..6]);
    backs, es := PackEntriesOnly(blob[6..]);
    PackEntriesRead(backs, es);
    hide LE, FromLE, Listpack.ParseEntries, Listpack.Texts, PackBody, Closed;
    InThree(blob, 4, 6);
  }

  /** A blob is read as a listpack exactly when it is one, however it spells the lengths behind its elements. */
  lemma ListpackIff(blob: Str)
    ensures Listpack.ParseListpack(blob).Ok? <==> exists count, backs, es :: IsListpack(blob, count, backs, es)
  {
    if Listpack.ParseListpack(blob).Ok? {
      var count, backs, es := ListpackOnly(blob);
    }
    if count, backs, es :| IsListpack(blob, count, backs, es) {
      IsListpackRead(blob, count, backs, es);
    }
  }
}
