/** Intsets (src/redis_rdb_restore.cpp:636-687): a blob of integers of one width. */
module Intset {
  import opened Bytes
  import opened Decimal
  import opened Rdb

  /** Half the range of an integer of that many bytes. */
  function Half(size: nat): (h: nat)
    ensures h > 0
  {
    if size == 2 then 0x8000 else if size == 4 then 0x8000_0000 else 0x8000_0000_0000_0000
  }

  function ParseInts(s: Str, size: nat, count: nat): Parsed<seq<Str>> {
    if count == 0 then Ok([], s)
    else
      var n := ParseInt(s, size, Half(size));
      if n.Bad? then Bad
      else
        var more := ParseInts(n.rest, size, count - 1);
        if more.Bad? then Bad else Ok([n.value] + more.value, more.rest)
  }

  /** The elements of a whole blob, whose size must be what the width and the count announce. */
  function ParseIntset(blob: Str): Parsed<seq<Str>> {
    if |blob| < 8 then Bad
    else
      var size, count := FromLE(blob[..4]), FromLE(blob[4..8]);
      if size !in {2, 4, 8} || |blob| != 8 + count * size then Bad else ParseInts(blob[8..], size, count)
  }

  // ---- the encoder ------------------------------------------------------------------------------

  ghost predicate InRange(ns: seq<int>, size: nat) {
    size in {2, 4, 8} && forall i :: 0 <= i < |ns| ==> 0 <= ns[i] + Half(size) < 2 * Half(size)
  }

  function Body(ns: seq<int>, size: nat): Str {
    if ns == [] then [] else LE(size, ns[0] % (2 * Half(size))) + Body(ns[1..], size)
  }

  function Texts(ns: seq<int>): seq<Str> {
    if ns == [] then [] else [ToString(ns[0])] + Texts(ns[1..])
  }

  function Blob(ns: seq<int>, size: nat): Str { LE(4, size) + (LE(4, |ns|) + Body(ns, size)) }

  lemma HalfIsHalf(size: nat)
    requires size in {2, 4, 8}
    ensures Pow256(size) == 2 * Half(size)
  {
    Pow256Values();
  }

  lemma {:induction false} BodyLength(ns: seq<int>, size: nat)
    requires size in {2, 4, 8}
    ensures |Body(ns, size)| == |ns| * size
  {
    if ns != [] {
      BodyLength(ns[1..], size);
      OneMore(|ns| - 1, size);
    }
  }

  lemma OneMore(n: int, size: int)
    ensures (n + 1) * size == n * size + size
  {
  }

  lemma {:induction false} IntsInverse(ns: seq<int>, size: nat, rest: Str)
    requires InRange(ns, size)
    ensures ParseInts(Body(ns, size) + rest, size, |ns|) == Ok(Texts(ns), rest)
  {
    if ns == [] {
      assert Body(ns, size) + rest == rest;
    } else {
      IntsInverse(ns[1..], size, rest);
      HalfIsHalf(size);
      hide ParseInt, LE, Half, ToString, Pow256;
      var first := LE(size, ns[0] % (2 * Half(size)));
      IntInverse(ns[0], size, Half(size), Body(ns[1..], size) + rest);
      Assoc(first, Body(ns[1..], size), rest);
    }
  }

  /** Decoding an encoded intset gives its elements back. */
  lemma IntsetInverse(ns: seq<int>, size: nat)
    requires InRange(ns, size) && |ns| < 0x1_0000_0000
    ensures ParseIntset(Blob(ns, size)) == Ok(Texts(ns), [])
  {
    Pow256Values();
    LERoundTrip(4, size);
    LERoundTrip(4, |ns|);
    BodyLength(ns, size);
    IntsInverse(ns, size, []);
    BlobParts(ns, size);
    hide LE, FromLE, Body, ParseInts, Texts, Blob, Pow256;
  }

  lemma BlobParts(ns: seq<int>, size: nat)
    ensures var blob := Blob(ns, size);
      && |blob| == 8 + |Body(ns, size)| && blob[8..] == Body(ns, size) + []
      && blob[..4] == LE(4, size) && blob[4..8] == LE(4, |ns|)
  {
    hide LE, Body;
  }

  // ---- the reader -------------------------------------------------------------------------------

  method ParseIntSetBlob(blob: Str) returns (ok: bool, entries: seq<Str>)
    ensures ok == ParseIntset(blob).Ok?
    ensures ok ==> entries == ParseIntset(blob).value
  {
    entries := [];
    if |blob| < 8 {
      return false, [];
    }
    var r := new Reader(blob, 0);
    var _, encoding := r.ReadBytes(4);
    var _, number := r.ReadBytes(4);
    assert number == blob[4..8] && r.Rest() == blob[8..];
    hide FromLE, ParseInts;
    var size, count := FromLE(encoding), FromLE(number);
    if size != 2 && size != 4 && size != 8 {
      return false, [];
    }
    if |blob| != 8 + count * size {
      return false, [];
    }
    Enough(r.Rest(), size, count);
    entries := ReadInts(r, size, count);
    ok := true;
  }

  method ReadInts(r: Reader, size: nat, count: nat) returns (entries: seq<Str>)
    requires r.Valid() && ParseInts(r.Rest(), size, count).Ok?
    modifies r`pos
    ensures entries == ParseInts(old(r.Rest()), size, count).value
  {
    hide ParseInt, Half;
    entries := [];
    ghost var whole := ParseInts(r.Rest(), size, count);
    for i := 0 to count
      invariant r.Valid()
      invariant var more := ParseInts(r.Rest(), size, count - i);
        more.Ok? && whole.value == entries + more.value
    {
      var good, value := r.ReadInt(size, Half(size));
      entries := entries + [value];
    }
  }

  lemma AtLeastOne(count: nat, size: nat)
    requires count > 0
    ensures count * size >= size
  {
  }

  /** The size check leaves nothing that can fail. */
  lemma {:induction false} Enough(s: Str, size: nat, count: nat)
    requires |s| == count * size
    ensures ParseInts(s, size, count).Ok?
  {
    if count > 0 {
      OneMore(count - 1, size);
      AtLeastOne(count, size);
      Enough(s[size..], size, count - 1);
    }
  }
}
