/** The dump of an object (ConvertEloqObjectToRedisDumpPayload, src/redis_rdb_restore.cpp:1424-1489), and what
    decoding it gives. */
module RdbDump {
  import opened Bytes
  import opened Objects
  import opened Rdb
  import opened RdbDecode
  import opened ZsetObject

  /** The content of an object, without its expiry time. */
  datatype Value =
    | StringValue(s: Str)
    | ListValue(elements: seq<Str>)
    | SetValue(members: set<Str>)
    | HashValue(fields: map<Str, Str>)
    | ZsetValue(scores: Scores)

  /** The number of entries that a restore counts. */
  ghost function Count(v: Value): nat {
    match v
    case StringValue(_) => 0
    case ListValue(l) => |l|
    case SetValue(m) => |m|
    case HashValue(f) => |f|
    case ZsetValue(z) => |z|
  }

  // ---- entries ----------------------------------------------------------------------------------

  function RdbPair(p: (Str, Str)): Str { RdbString(p.0) + RdbString(p.1) }

  function RdbScored(item: (Score, Str)): Str { RdbString(item.1) + LE(8, item.0) }

  /** The pairs of a map along an enumeration of its keys. */
  function PairsOf(order: seq<Str>, m: map<Str, Str>): seq<(Str, Str)>
    requires forall x :: x in order ==> x in m
  {
    seq(|order|, i requires 0 <= i < |order| => (order[i], m[order[i]]))
  }

  function ItemsOf(order: seq<Str>, z: Scores): seq<(Score, Str)>
    requires forall x :: x in order ==> x in z
  {
    seq(|order|, i requires 0 <= i < |order| => (z[order[i]], order[i]))
  }

  function EncodeMany<T>(items: seq<T>, enc: T -> Str): Str {
    if items == [] then [] else enc(items[0]) + EncodeMany(items[1..], enc)
  }

  function CountedBytes<T>(items: seq<T>, enc: T -> Str): Str { RdbLen(|items|) + EncodeMany(items, enc) }

  // ---- dumps ------------------------------------------------------------------------------------

  /** The entries of `c` are those of the object, in some order. */
  ghost predicate Lists(c: Content, v: Value) {
    match v
    case StringValue(s) => c == StringContent(s)
    case ListValue(l) => c == ListContent(l)
    case SetValue(m) => c.SetContent? && IsOrder(c.elements, m)
    case HashValue(f) => c.HashContent? && exists order :: IsOrder(order, f.Keys) && c.pairs == PairsOf(order, f)
    case ZsetValue(z) => c.ZsetContent? && exists order :: IsOrder(order, z.Keys) && c.items == ItemsOf(order, z)
  }

  /** The dump that writes these entries. */
  function DumpBytes(c: Content): Str {
    match c
    case StringContent(s) => [0] + RdbString(s)
    case ListContent(l) => [1] + CountedBytes(l, RdbString)
    case SetContent(l) => [2] + CountedBytes(l, RdbString)
    case HashContent(ps) => [4] + CountedBytes(ps, RdbPair)
    case ZsetContent(items) => [5] + CountedBytes(items, RdbScored)
  }

  ghost predicate IsDump(v: Value, dump: Str) {
    exists c :: Lists(c, v) && dump == DumpBytes(c)
  }

  // ---- decoding a dump ----------------------------------------------------------------------------

  /** Every item is read back as its value, or refused. */
  ghost predicate Reads<T(!new), U(!new)>(items: seq<T>, enc: T -> Str, good: T -> bool, val: T -> U,
                                          one: Str -> Parsed<U>) {
    forall i, t :: 0 <= i < |items| ==>
      one(enc(items[i]) + t) == if good(items[i]) then Ok(val(items[i]), t) else Bad
  }

  function Values<T, U>(items: seq<T>, val: T -> U): seq<U> {
    if items == [] then [] else [val(items[0])] + Values(items[1..], val)
  }

  ghost predicate AllGood<T>(items: seq<T>, good: T -> bool) { forall i :: 0 <= i < |items| ==> good(items[i]) }

  lemma {:induction false} ManyReads<T(!new), U(!new)>(items: seq<T>, enc: T -> Str, good: T -> bool, val: T -> U,
                                                       one: Str -> Parsed<U>, rest: Str)
    requires Reads(items, enc, good, val, one)
    ensures var p := Many(EncodeMany(items, enc) + rest, |items|, one);
      if AllGood(items, good) then p == Ok(Values(items, val), rest) else p.Bad?
    decreases |items|
  {
    if items == [] {
      assert EncodeMany(items, enc) + rest == rest;
    } else {
      var more := EncodeMany(items[1..], enc);
      ManyReads(items[1..], enc, good, val, one, rest);
      Assoc(enc(items[0]), more, rest);
      assert one(enc(items[0]) + (more + rest)) == if good(items[0]) then Ok(val(items[0]), more + rest) else Bad;
      assert AllGood(items, good) <==> good(items[0]) && AllGood(items[1..], good) by {
        assert forall i :: 0 <= i < |items[1..]| ==> items[1..][i] == items[i + 1];
        assert forall i :: 1 <= i < |items| ==> items[i] == items[1..][i - 1];
      }
    }
  }

  lemma {:induction false} ManyLength<T>(items: seq<T>, enc: T -> Str, min: nat)
    requires min == 1 || min == 2
    requires forall i :: 0 <= i < |items| ==> |enc(items[i])| >= min
    ensures |EncodeMany(items, enc)| >= min * |items|
  {
    if items != [] {
      ManyLength(items[1..], enc, min);
    }
  }

  /** A counted collection is read exactly when every item is good and there are not too many of them. */
  lemma CountedReadsIff<T(!new), U(!new)>(items: seq<T>, enc: T -> Str, good: T -> bool, val: T -> U,
                                          one: Str -> Parsed<U>, min: nat)
    requires min == 1 || min == 2
    requires |items| < 0x1_0000_0000_0000_0000 && Reads(items, enc, good, val, one)
    requires forall i :: 0 <= i < |items| ==> |enc(items[i])| >= min
    ensures Counted(CountedBytes(items, enc), min, one) ==
            if |items| <= MAX_ENTRIES && AllGood(items, good) then Some(Values(items, val)) else None
  {
    ManyLength(items, enc, min);
    ManyReads(items, enc, good, val, one, []);
    hide Many, EncodeMany, Reads, AllGood, RdbLen, ParsePlain, Values;
    var body := EncodeMany(items, enc);
    PlainInverse(|items|, body);
    assert body + [] == body;
    assert ValidateCount(|items|, min, |body|) <==> |items| <= MAX_ENTRIES;
  }

  ghost predicate Inverse<T(!new)>(items: seq<T>, enc: T -> Str, one: Str -> Parsed<T>) {
    forall i, t :: 0 <= i < |items| ==> one(enc(items[i]) + t) == Ok(items[i], t)
  }

  /** A genuine dump is refused exactly when it has too many entries. */
  lemma CountedIff<T(!new)>(items: seq<T>, enc: T -> Str, one: Str -> Parsed<T>, min: nat)
    requires min == 1 || min == 2
    requires |items| < 0x1_0000_0000_0000_0000 && Inverse(items, enc, one)
    requires forall i :: 0 <= i < |items| ==> |enc(items[i])| >= min
    ensures Counted(CountedBytes(items, enc), min, one) == if |items| <= MAX_ENTRIES then Some(items) else None
  {
    var always: T -> bool, same: T -> T := x => true, x => x;
    CountedReadsIff(items, enc, always, same, one, min);
    ValuesAreItems(items, same);
  }

  lemma {:induction false} ValuesAreItems<T>(items: seq<T>, same: T -> T)
    requires forall i :: 0 <= i < |items| ==> same(items[i]) == items[i]
    ensures Values(items, same) == items
  {
    if items != [] {
      ValuesAreItems(items[1..], same);
    }
  }

  ghost predicate Short(s: Str) { |s| < 0x1_0000_0000_0000_0000 }

  lemma StringsInverse(l: seq<Str>, past: byte)
    requires forall i :: 0 <= i < |l| ==> Short(l[i])
    ensures Inverse(l, RdbString, StringParser(past))
    ensures forall i :: 0 <= i < |l| ==> |RdbString(l[i])| >= 1
  {
    forall i, t | 0 <= i < |l| ensures ParseString(RdbString(l[i]) + t, past) == Ok(l[i], t) {
      StringInverse(l[i], t, past);
    }
  }

  lemma PairInverse(p: (Str, Str), t: Str, past: byte)
    requires Short(p.0) && Short(p.1)
    ensures ParsePair(RdbPair(p) + t, past) == Ok(p, t)
  {
    hide ParseString, RdbString;
    Assoc(RdbString(p.0), RdbString(p.1), t);
    StringInverse(p.0, RdbString(p.1) + t, past);
    StringInverse(p.1, t, past);
  }

  lemma ScoredInverse(item: (Score, Str), t: Str, past: byte)
    requires Short(item.1)
    ensures ParseBinary(RdbScored(item) + t, past) == Ok(item, t)
  {
    Pow256Values();
    hide ParseString, RdbString, LE, FromLE, Pow256;
    var score := LE(8, item.0);
    Assoc(RdbString(item.1), score, t);
    StringInverse(item.1, score + t, past);
    LERoundTrip(8, item.0);
    assert (score + t)[..8] == score && (score + t)[8..] == t;
  }

  lemma PairsInverse(ps: seq<(Str, Str)>, past: byte)
    requires forall i :: 0 <= i < |ps| ==> Short(ps[i].0) && Short(ps[i].1)
    ensures Inverse(ps, RdbPair, PairParser(past))
    ensures forall i :: 0 <= i < |ps| ==> |RdbPair(ps[i])| >= 2
  {
    forall i, t | 0 <= i < |ps| ensures ParsePair(RdbPair(ps[i]) + t, past) == Ok(ps[i], t) {
      PairInverse(ps[i], t, past);
    }
  }

  lemma ItemsInverse(items: seq<(Score, Str)>, toDouble: ToDouble, past: byte)
    requires forall i :: 0 <= i < |items| ==> Short(items[i].1)
    ensures Inverse(items, RdbScored, ItemParser(true, toDouble, past))
    ensures forall i :: 0 <= i < |items| ==> |RdbScored(items[i])| >= 2
  {
    forall i, t | 0 <= i < |items| ensures ParseBinary(RdbScored(items[i]) + t, past) == Ok(items[i], t) {
      ScoredInverse(items[i], t, past);
    }
  }

  /** Lengths and counts that a 64-bit length can express. */
  ghost predicate Encodable(c: Content) {
    match c
    case StringContent(s) => Short(s)
    case ListContent(l) => |l| < 0x1_0000_0000_0000_0000 && forall i :: 0 <= i < |l| ==> Short(l[i])
    case SetContent(l) => |l| < 0x1_0000_0000_0000_0000 && forall i :: 0 <= i < |l| ==> Short(l[i])
    case HashContent(ps) =>
      |ps| < 0x1_0000_0000_0000_0000 && forall i :: 0 <= i < |ps| ==> Short(ps[i].0) && Short(ps[i].1)
    case ZsetContent(items) =>
      |items| < 0x1_0000_0000_0000_0000 && forall i :: 0 <= i < |items| ==> Short(items[i].1)
  }

  ghost function Entries(c: Content): nat {
    match c
    case StringContent(_) => 0
    case ListContent(l) => |l|
    case SetContent(l) => |l|
    case HashContent(ps) => |ps|
    case ZsetContent(items) => |items|
  }

  /** Decoding a dump gives its entries back in order, and fails exactly above the cap. */
  lemma DecodeInvertsDump(c: Content, toDouble: ToDouble, past: byte)
    requires Encodable(c)
    ensures Decode(DumpBytes(c), toDouble, past) == if Entries(c) <= MAX_ENTRIES then Some(c) else None
  {
    hide Decode, Blob, Counted, CountedBytes;
    match c
    case StringContent(s) => StringCase(s, toDouble, past);
    case ListContent(l) => ListCase(l, toDouble, past);
    case SetContent(l) => SetCase(l, toDouble, past);
    case HashContent(ps) => HashCase(ps, toDouble, past);
    case ZsetContent(items) => ZsetCase(items, toDouble, past);
  }

  lemma DecodeList(s: Str, toDouble: ToDouble, past: byte)
    ensures var items := Counted(s, 1, StringParser(past));
      Decode([1] + s, toDouble, past) == if items.None? then None else Some(ListContent(items.value))
  {
    hide Counted;
    assert ([1] + s)[1..] == s;
  }

  lemma DecodeSet(s: Str, toDouble: ToDouble, past: byte)
    ensures var items := Counted(s, 1, StringParser(past));
      Decode([2] + s, toDouble, past) == if items.None? then None else Some(SetContent(items.value))
  {
    hide Counted;
    assert ([2] + s)[1..] == s;
  }

  lemma DecodeHash(s: Str, toDouble: ToDouble, past: byte)
    ensures var items := Counted(s, 2, PairParser(past));
      Decode([4] + s, toDouble, past) == if items.None? then None else Some(HashContent(items.value))
  {
    hide Counted;
    assert ([4] + s)[1..] == s;
  }

  lemma DecodeZset(s: Str, toDouble: ToDouble, past: byte)
    ensures var items := Counted(s, 2, ItemParser(true, toDouble, past));
      Decode([5] + s, toDouble, past) == if items.None? then None else Some(ZsetContent(items.value))
  {
    hide Counted;
    assert ([5] + s)[1..] == s;
  }

  lemma StringCase(s: Str, toDouble: ToDouble, past: byte)
    requires Short(s)
    ensures Decode([0] + RdbString(s), toDouble, past) == Some(StringContent(s))
  {
    hide ParseString, RdbString;
    StringInverse(s, [], past);
    assert ([0] + RdbString(s))[1..] == RdbString(s) + [];
  }

  lemma ListCase(l: seq<Str>, toDouble: ToDouble, past: byte)
    requires Encodable(ListContent(l))
    ensures Decode([1] + CountedBytes(l, RdbString), toDouble, past) ==
            if |l| <= MAX_ENTRIES then Some(ListContent(l)) else None
  {
    StringsInverse(l, past);
    CountedIff(l, RdbString, StringParser(past), 1);
    hide *;
    DecodeList(CountedBytes(l, RdbString), toDouble, past);
  }

  lemma SetCase(l: seq<Str>, toDouble: ToDouble, past: byte)
    requires Encodable(SetContent(l))
    ensures Decode([2] + CountedBytes(l, RdbString), toDouble, past) ==
            if |l| <= MAX_ENTRIES then Some(SetContent(l)) else None
  {
    StringsInverse(l, past);
    CountedIff(l, RdbString, StringParser(past), 1);
    hide *;
    DecodeSet(CountedBytes(l, RdbString), toDouble, past);
  }

  lemma HashCase(ps: seq<(Str, Str)>, toDouble: ToDouble, past: byte)
    requires Encodable(HashContent(ps))
    ensures Decode([4] + CountedBytes(ps, RdbPair), toDouble, past) ==
            if |ps| <= MAX_ENTRIES then Some(HashContent(ps)) else None
  {
    PairsInverse(ps, past);
    CountedIff(ps, RdbPair, PairParser(past), 2);
    hide *;
    DecodeHash(CountedBytes(ps, RdbPair), toDouble, past);
  }

  lemma ZsetCase(items: seq<(Score, Str)>, toDouble: ToDouble, past: byte)
    requires Encodable(ZsetContent(items))
    ensures Decode([5] + CountedBytes(items, RdbScored), toDouble, past) ==
            if |items| <= MAX_ENTRIES then Some(ZsetContent(items)) else None
  {
    ItemsInverse(items, toDouble, past);
    CountedIff(items, RdbScored, ItemParser(true, toDouble, past), 2);
    hide *;
    DecodeZset(CountedBytes(items, RdbScored), toDouble, past);
  }

  /** A list of 2^20 + 1 empty strings is dumped and then refused. */
  lemma CapWitness(toDouble: ToDouble, past: byte)
    ensures var l: seq<Str> := seq(MAX_ENTRIES + 1, _ => []); Decode(DumpBytes(ListContent(l)), toDouble, past) == None
  {
    var l: seq<Str> := seq(MAX_ENTRIES + 1, _ => []);
    DecodeInvertsDump(ListContent(l), toDouble, past);
  }

  // ---- bytes behind a dump --------------------------------------------------------------------------

  lemma CountedTrailing<T(!new)>(items: seq<T>, enc: T -> Str, one: Str -> Parsed<T>, min: nat, junk: Str)
    requires |items| < 0x1_0000_0000_0000_0000 && Inverse(items, enc, one) && junk != []
    ensures Counted(CountedBytes(items, enc) + junk, min, one) == None
  {
    var always: T -> bool, same: T -> T := x => true, x => x;
    ManyReads(items, enc, always, same, one, junk);
    hide Many, EncodeMany, Inverse, RdbLen, ParsePlain, Values, ValidateCount;
    PlainInverse(|items|, EncodeMany(items, enc) + junk);
    Assoc(RdbLen(|items|), EncodeMany(items, enc), junk);
  }

  /** A dump with anything behind it is refused. */
  lemma TrailingRefused(c: Content, junk: Str, toDouble: ToDouble, past: byte)
    requires Encodable(c) && junk != []
    ensures Decode(DumpBytes(c) + junk, toDouble, past) == None
  {
    hide Decode, Counted, CountedBytes, Inverse;
    match c
    case StringContent(s) =>
      StringTrailing(s, junk, toDouble, past);
    case ListContent(l) =>
      Assoc([1], CountedBytes(l, RdbString), junk);
      StringsInverse(l, past);
      CountedTrailing(l, RdbString, StringParser(past), 1, junk);
      DecodeList(CountedBytes(l, RdbString) + junk, toDouble, past);
    case SetContent(l) =>
      Assoc([2], CountedBytes(l, RdbString), junk);
      StringsInverse(l, past);
      CountedTrailing(l, RdbString, StringParser(past), 1, junk);
      DecodeSet(CountedBytes(l, RdbString) + junk, toDouble, past);
    case HashContent(ps) =>
      Assoc([4], CountedBytes(ps, RdbPair), junk);
      PairsInverse(ps, past);
      CountedTrailing(ps, RdbPair, PairParser(past), 2, junk);
      DecodeHash(CountedBytes(ps, RdbPair) + junk, toDouble, past);
    case ZsetContent(items) =>
      Assoc([5], CountedBytes(items, RdbScored), junk);
      ItemsInverse(items, toDouble, past);
      CountedTrailing(items, RdbScored, ItemParser(true, toDouble, past), 2, junk);
      DecodeZset(CountedBytes(items, RdbScored) + junk, toDouble, past);
  }

  lemma StringTrailing(s: Str, junk: Str, toDouble: ToDouble, past: byte)
    requires Short(s) && junk != []
    ensures Decode([0] + RdbString(s) + junk, toDouble, past) == None
  {
    hide ParseString, RdbString;
    StringInverse(s, junk, past);
    assert ([0] + RdbString(s) + junk)[1..] == RdbString(s) + junk;
  }
}
