/** The byte format shared by the stored objects: a type byte, an expiry time if there is one, and sized strings
    (include/redis_list_object.h:61-142 and its siblings).

    Reading trusts its input, so the reading methods ask that the buffer holds an encoding at the offset; the encoded
    value is a ghost argument. */
module ObjectCodec {
  import opened Bytes

  const STRING: byte := 0
  const LIST: byte := 1
  const HASH: byte := 2
  const ZSET: byte := 4
  const SET: byte := 5

  /** The expiry time: types with one have their own type byte, six above the plain one. */
  datatype Ttl = Forever | Until(ms: nat) {
    predicate Valid() { Until? ==> ms < 0x1_0000_0000_0000_0000 }
    function Size(): nat { if Until? then 8 else 0 }
  }

  function Header(tag: byte, ttl: Ttl): (h: Str)
    requires tag <= SET
    ensures |h| == 1 + ttl.Size()
  {
    if ttl.Until? then [tag + 6] + LE(8, ttl.ms) else [tag]
  }

  /** A counted collection of sized strings: lists and sets. */
  function StringsBytes(tag: byte, ttl: Ttl, items: seq<Str>): Str
    requires tag <= SET
  {
    Header(tag, ttl) + (LE(4, |items|) + AllSized(items))
  }

  lemma StringsBytesLength(tag: byte, ttl: Ttl, items: seq<Str>)
    requires tag <= SET
    ensures |StringsBytes(tag, ttl, items)| == 5 + ttl.Size() + SizedLength(items)
  {
    AllSizedLength(items);
  }

  // ---- collections whose items are more than one string -------------------------------------------

  function Join(chunks: seq<Str>): Str {
    if chunks == [] then [] else chunks[0] + Join(chunks[1..])
  }

  lemma {:induction false} JoinSnoc(chunks: seq<Str>, i: nat)
    requires i < |chunks|
    ensures Join(chunks[..i + 1]) == Join(chunks[..i]) + chunks[i]
  {
    if i == 0 {
      assert chunks[..1] == [chunks[0]];
      assert Join([chunks[0]]) == chunks[0] + [];
    } else {
      JoinSnoc(chunks[1..], i - 1);
      assert chunks[..i + 1][1..] == chunks[1..][..i] && chunks[..i][1..] == chunks[1..][..i - 1];
      Assoc(chunks[0], Join(chunks[1..][..i - 1]), chunks[i]);
    }
  }

  lemma NothingJoined(chunks: seq<Str>)
    ensures Join(chunks[..0]) == []
  {
  }

  /** A counted collection, given the bytes of its items. */
  function ChunksBytes(tag: byte, ttl: Ttl, chunks: seq<Str>): Str
    requires tag <= SET
  {
    Header(tag, ttl) + (LE(4, |chunks|) + Join(chunks))
  }

  // ---- writing ----------------------------------------------------------------------------------

  method AppendStrings(out0: Str, items: seq<Str>) returns (out: Str)
    ensures out == out0 + AllSized(items)
  {
    out := out0;
    for i := 0 to |items|
      invariant out == out0 + AllSized(items[..i])
    {
      out := out + LE(4, |items[i]|);
      out := out + items[i];
      AllSizedSnoc(items, i);
    }
    assert items[..|items|] == items;
  }

  lemma AllSizedSnoc(items: seq<Str>, i: nat)
    requires i < |items|
    ensures AllSized(items[..i + 1]) == AllSized(items[..i]) + Sized(items[i])
  {
    assert items[..i + 1] == items[..i] + [items[i]];
    AllSizedConcat(items[..i], [items[i]]);
    assert AllSized([items[i]]) == Sized(items[i]) + [];
  }

  // ---- reading ----------------------------------------------------------------------------------

  ghost predicate Holds(buf: Str, offset: nat, piece: Str) {
    offset + |piece| <= |buf| && buf[offset..offset + |piece|] == piece
  }

  lemma HoldsParts(buf: Str, offset: nat, a: Str, b: Str)
    requires Holds(buf, offset, a + b)
    ensures Holds(buf, offset, a) && Holds(buf, offset + |a|, b)
  {
    var whole := buf[offset..offset + |a + b|];
    forall i | 0 <= i < |a| ensures buf[offset..offset + |a|][i] == a[i] {
      assert whole[i] == (a + b)[i];
    }
    forall i | 0 <= i < |b| ensures buf[offset + |a|..offset + |a| + |b|][i] == b[i] {
      assert whole[|a| + i] == (a + b)[|a| + i];
    }
  }

  method ReadLE(buf: Str, offset0: nat, k: nat, ghost v: nat) returns (n: nat, offset: nat)
    requires v < Pow256(k) && Holds(buf, offset0, LE(k, v))
    ensures n == v && offset == offset0 + k <= |buf|
  {
    LERoundTrip(k, v);
    n := FromLE(buf[offset0..offset0 + k]);
    offset := offset0 + k;
  }

  method ReadSized(buf: Str, offset0: nat, ghost s: Str) returns (r: Str, offset: nat)
    requires |s| < 0x1_0000_0000 && Holds(buf, offset0, Sized(s))
    ensures r == s && offset == offset0 + 4 + |s| <= |buf|
  {
    Pow256Values();
    HoldsParts(buf, offset0, LE(4, |s|), s);
    var size;
    size, offset := ReadLE(buf, offset0, 4, |s|);
    r := buf[offset..offset + size];
    offset := offset + size;
  }

  /** The type byte, and the expiry time that a type with one carries. */
  method ReadHeader(buf: Str, offset0: nat, timed: bool, ghost tag: byte, ghost ttl0: Ttl)
    returns (ttl: Ttl, offset: nat)
    requires tag <= SET && ttl0.Valid() && timed == ttl0.Until? && Holds(buf, offset0, Header(tag, ttl0))
    ensures ttl == ttl0 && offset == offset0 + |Header(tag, ttl0)| <= |buf|
  {
    offset := offset0 + 1;
    ttl := Forever;
    if timed {
      Pow256Values();
      HoldsParts(buf, offset0, [tag + 6], LE(8, ttl0.ms));
      var ms;
      ms, offset := ReadLE(buf, offset, 8, ttl0.ms);
      ttl := Until(ms);
    }
  }

  lemma FirstChunk(buf: Str, offset: nat, chunks: seq<Str>, i: nat)
    requires i < |chunks| && Holds(buf, offset, Join(chunks[i..]))
    ensures Holds(buf, offset, chunks[i]) && Holds(buf, offset + |chunks[i]|, Join(chunks[i + 1..]))
  {
    assert chunks[i..][1..] == chunks[i + 1..];
    HoldsParts(buf, offset, chunks[i], Join(chunks[i + 1..]));
  }

  lemma FirstItem(buf: Str, offset: nat, items: seq<Str>, i: nat)
    requires i < |items| && Holds(buf, offset, AllSized(items[i..]))
    ensures Holds(buf, offset, Sized(items[i]))
    ensures Holds(buf, offset + 4 + |items[i]|, AllSized(items[i + 1..]))
  {
    assert items[i..][1..] == items[i + 1..];
    HoldsParts(buf, offset, Sized(items[i]), AllSized(items[i + 1..]));
  }

  /** Reading the header and the count of a collection. */
  method ReadPreamble(buf: Str, offset0: nat, timed: bool, ghost tag: byte, ghost ttl0: Ttl, ghost n: nat,
                      ghost body: Str)
    returns (ttl: Ttl, cnt: nat, offset: nat)
    requires tag <= SET && ttl0.Valid() && timed == ttl0.Until? && n < 0x1_0000_0000
    requires Holds(buf, offset0, Header(tag, ttl0) + (LE(4, n) + body))
    ensures ttl == ttl0 && cnt == n && offset == offset0 + 5 + ttl0.Size() && Holds(buf, offset, body)
  {
    Pow256Values();
    HoldsParts(buf, offset0, Header(tag, ttl0), LE(4, n) + body);
    HoldsParts(buf, offset0 + |Header(tag, ttl0)|, LE(4, n), body);
    ttl, offset := ReadHeader(buf, offset0, timed, tag, ttl0);
    cnt, offset := ReadLE(buf, offset, 4, n);
  }
}
