/** What the payloads that Redis writes, and EloqKV only reads, decode to: compact blobs, lists kept as nodes, and
    sorted sets with scores as text (src/redis_rdb_restore.cpp:1166-1191 and 1220-1411). */
module RdbCompact {
  import opened Bytes
  import opened Rdb
  import opened RdbDecode
  import opened RdbDump
  import opened ZsetObject
  import Intset
  import Listpack
  import Ziplist

  // ---- lists and sets in one blob ---------------------------------------------------------------

  /** A payload of one blob decodes to what the blob's entries stand for. */
  lemma BlobDecodes(kind: byte, blob: Str, toDouble: ToDouble, past: byte)
    requires IsBlobKind(kind) && |blob| < 0x1_0000_0000_0000_0000
    ensures Decode([kind] + RdbString(blob), toDouble, past) ==
      var es := BlobEntries(kind, blob); if es.None? then None else BlobContent(kind, es.value, toDouble)
  {
    hide ParseString, RdbString, BlobEntries, BlobContent;
    StringInverse(blob, [], past);
    assert ([kind] + RdbString(blob))[1..] == RdbString(blob) + [];
  }

  ghost predicate ZiplistFits(zs: seq<Ziplist.Entry>, ignored: Str) {
    && (forall i :: 0 <= i < |zs| ==> zs[i].Valid())
    && |ignored| == 6 && 11 + |Ziplist.Body(zs, 0)| < 0x1_0000_0000
  }

  function ZiplistBlob(zs: seq<Ziplist.Entry>, ignored: Str): Str
    requires forall i :: 0 <= i < |zs| ==> zs[i].Valid()
  {
    Ziplist.Blob(Ziplist.Body(zs, 0), ignored)
  }

  /** The listpack of some entries, as the reader expects it or as Redis lays it out. */
  function ListpackBlob(es: seq<Listpack.Entry>, redis: bool): Str
    requires forall i :: 0 <= i < |es| ==> es[i].Valid()
  {
    Listpack.Blob(if redis then Listpack.RedisBody(es) else Listpack.Body(es), |es|)
  }

  ghost predicate ListpackFits(es: seq<Listpack.Entry>, redis: bool) {
    Listpack.AllValid(es) && 7 + |if redis then Listpack.RedisBody(es) else Listpack.Body(es)| < 0x1_0000_0000
  }

  /** The reader finds the length behind every element where it looks for it. */
  ghost predicate Readable(es: seq<Listpack.Entry>, redis: bool) {
    Listpack.AllValid(es) && (redis ==> Listpack.AllShort(es))
  }

  lemma ZiplistEntries(kind: int, zs: seq<Ziplist.Entry>, ignored: Str)
    requires kind in {10, 12, 13} && ZiplistFits(zs, ignored)
    ensures |ZiplistBlob(zs, ignored)| < 0x1_0000_0000
    ensures BlobEntries(kind, ZiplistBlob(zs, ignored)) == Some(Ziplist.Texts(zs))
  {
    hide Ziplist.ParseZiplist, Ziplist.Body;
    Ziplist.ZiplistInverse(zs, ignored);
  }

  lemma ListpackParses(es: seq<Listpack.Entry>, redis: bool)
    requires ListpackFits(es, redis)
    ensures |ListpackBlob(es, redis)| < 0x1_0000_0000
    ensures var p := Listpack.ParseListpack(ListpackBlob(es, redis));
      if Readable(es, redis) then p == Ok(Listpack.Texts(es), []) else p.Bad?
  {
    hide Listpack.ParseListpack, Listpack.Texts, Listpack.Blob, Listpack.Body, Listpack.RedisBody;
    if redis {
      Listpack.BlobParts(Listpack.RedisBody(es), |es|);
      Listpack.RedisListpackIff(es);
    } else {
      Listpack.BlobParts(Listpack.Body(es), |es|);
      Listpack.ListpackInverse(es);
    }
  }

  lemma ListpackEntries(kind: int, es: seq<Listpack.Entry>, redis: bool)
    requires kind in {16, 17, 20} && ListpackFits(es, redis)
    ensures |ListpackBlob(es, redis)| < 0x1_0000_0000
    ensures BlobEntries(kind, ListpackBlob(es, redis)) ==
            if Readable(es, redis) then Some(Listpack.Texts(es)) else None
  {
    hide Listpack.ParseListpack, ListpackBlob, Readable;
    ListpackParses(es, redis);
  }

  /** Lists as a ziplist, and sets as an intset or as a listpack, restore to their elements in order.  A listpack in
      Redis's layout restores exactly when no element takes more than 127 bytes. */
  lemma ElementsRestore(zs: seq<Ziplist.Entry>, ignored: Str, ns: seq<int>, size: nat, es: seq<Listpack.Entry>,
                        redis: bool, toDouble: ToDouble, past: byte)
    requires ZiplistFits(zs, ignored) && ListpackFits(es, redis)
    requires Intset.InRange(ns, size) && |ns| < 0x1_0000_0000
    ensures Decode([10] + RdbString(ZiplistBlob(zs, ignored)), toDouble, past) == Some(ListContent(Ziplist.Texts(zs)))
    ensures Decode([11] + RdbString(Intset.Blob(ns, size)), toDouble, past) == Some(SetContent(Intset.Texts(ns)))
    ensures Decode([20] + RdbString(ListpackBlob(es, redis)), toDouble, past) ==
            if Readable(es, redis) then Some(SetContent(Listpack.Texts(es))) else None
  {
    ZiplistEntries(10, zs, ignored);
    ListpackEntries(20, es, redis);
    Intset.IntsetInverse(ns, size);
    IntsetSize(ns, size);
    BlobDecodes(10, ZiplistBlob(zs, ignored), toDouble, past);
    BlobDecodes(11, Intset.Blob(ns, size), toDouble, past);
    BlobDecodes(20, ListpackBlob(es, redis), toDouble, past);
    hide Decode, ZiplistBlob, ListpackBlob, Readable, Intset.ParseIntset, Listpack.ParseListpack, Ziplist.ParseZiplist;
  }

  lemma IntsetSize(ns: seq<int>, size: nat)
    requires size in {2, 4, 8} && |ns| < 0x1_0000_0000
    ensures |Intset.Blob(ns, size)| < 0x10_0000_0000
  {
    Intset.BodyLength(ns, size);
  }

  // ---- pairs in one blob ------------------------------------------------------------------------

  /** Field, value, field, value, ... */
  function Flat(ps: seq<(Str, Str)>): seq<Str> {
    if ps == [] then [] else [ps[0].0, ps[0].1] + Flat(ps[1..])
  }

  lemma {:induction false} PairUpFlat(ps: seq<(Str, Str)>)
    ensures |Flat(ps)| == 2 * |ps| && PairUp(Flat(ps)) == ps
  {
    if ps != [] {
      PairUpFlat(ps[1..]);
      assert Flat(ps)[2..] == Flat(ps[1..]);
    }
  }

  ghost predicate Convertible(ps: seq<(Str, Str)>, toDouble: ToDouble) {
    forall i :: 0 <= i < |ps| ==> toDouble(ps[i].1).Some?
  }

  /** The members with the numbers that their scores spell. */
  function Scored(ps: seq<(Str, Str)>, toDouble: ToDouble): seq<(Score, Str)>
    requires forall i :: 0 <= i < |ps| ==> toDouble(ps[i].1).Some?
  {
    seq(|ps|, i requires 0 <= i < |ps| => (toDouble(ps[i].1).value, ps[i].0))
  }

  lemma {:induction false} ScoreUpFlat(ps: seq<(Str, Str)>, toDouble: ToDouble)
    ensures |Flat(ps)| == 2 * |ps|
    ensures ScoreUp(Flat(ps), toDouble) ==
            if Convertible(ps, toDouble) then Some(Scored(ps, toDouble)) else None
  {
    PairUpFlat(ps);
    if ps != [] {
      ScoreUpFlat(ps[1..], toDouble);
      assert Flat(ps)[2..] == Flat(ps[1..]);
      assert Convertible(ps, toDouble) <==> toDouble(ps[0].1).Some? && Convertible(ps[1..], toDouble) by {
        assert forall i :: 0 <= i < |ps[1..]| ==> ps[1..][i] == ps[i + 1];
        assert forall i :: 1 <= i < |ps| ==> ps[i] == ps[1..][i - 1];
      }
      if Convertible(ps, toDouble) {
        assert Scored(ps, toDouble) == [(toDouble(ps[0].1).value, ps[0].0)] + Scored(ps[1..], toDouble);
      }
    }
  }

  /** What a blob of pairs stands for under each of the four types that hold pairs. */
  ghost function PairContent(kind: int, ps: seq<(Str, Str)>, toDouble: ToDouble): Option<Content> {
    if kind == 13 || kind == 16 then Some(HashContent(ps))
    else if Convertible(ps, toDouble) then Some(ZsetContent(Scored(ps, toDouble)))
    else None
  }

  lemma PairsOfBlob(kind: int, es: seq<Str>, ps: seq<(Str, Str)>, toDouble: ToDouble)
    requires kind in {12, 13, 16, 17}
    ensures es == Flat(ps) ==> BlobContent(kind, es, toDouble) == PairContent(kind, ps, toDouble)
    ensures |es| % 2 != 0 ==> BlobContent(kind, es, toDouble) == None
  {
    hide ScoreUp, PairUp, Flat, Scored, Convertible;
    PairUpFlat(ps);
    ScoreUpFlat(ps, toDouble);
  }

  /** Hashes and sorted sets as a ziplist restore to their pairs, the scores as the numbers they spell; a sorted set is
      refused exactly when a score does not spell one, and either is when an entry has no partner. */
  lemma ZiplistPairsRestore(zs: seq<Ziplist.Entry>, ignored: Str, ps: seq<(Str, Str)>, toDouble: ToDouble, past: byte)
    requires ZiplistFits(zs, ignored)
    ensures Ziplist.Texts(zs) == Flat(ps) ==>
      && Decode([13] + RdbString(ZiplistBlob(zs, ignored)), toDouble, past) == PairContent(13, ps, toDouble)
      && Decode([12] + RdbString(ZiplistBlob(zs, ignored)), toDouble, past) == PairContent(12, ps, toDouble)
    ensures |Ziplist.Texts(zs)| % 2 != 0 ==>
      && Decode([13] + RdbString(ZiplistBlob(zs, ignored)), toDouble, past) == None
      && Decode([12] + RdbString(ZiplistBlob(zs, ignored)), toDouble, past) == None
  {
    hide Decode, ZiplistBlob, BlobContent, BlobEntries, PairContent, Flat;
    ZiplistEntries(12, zs, ignored);
    ZiplistEntries(13, zs, ignored);
    BlobDecodes(12, ZiplistBlob(zs, ignored), toDouble, past);
    BlobDecodes(13, ZiplistBlob(zs, ignored), toDouble, past);
    PairsOfBlob(12, Ziplist.Texts(zs), ps, toDouble);
    PairsOfBlob(13, Ziplist.Texts(zs), ps, toDouble);
  }

  /** The same for listpacks; in Redis's layout they restore only if no element takes more than 127 bytes. */
  lemma ListpackPairsRestore(es: seq<Listpack.Entry>, redis: bool, ps: seq<(Str, Str)>, toDouble: ToDouble, past: byte)
    requires ListpackFits(es, redis)
    ensures Readable(es, redis) && Listpack.Texts(es) == Flat(ps) ==>
      && Decode([16] + RdbString(ListpackBlob(es, redis)), toDouble, past) == PairContent(16, ps, toDouble)
      && Decode([17] + RdbString(ListpackBlob(es, redis)), toDouble, past) == PairContent(17, ps, toDouble)
    ensures !Readable(es, redis) || |Listpack.Texts(es)| % 2 != 0 ==>
      && Decode([16] + RdbString(ListpackBlob(es, redis)), toDouble, past) == None
      && Decode([17] + RdbString(ListpackBlob(es, redis)), toDouble, past) == None
  {
    hide Decode, ListpackBlob, BlobContent, BlobEntries, PairContent, Flat, Readable;
    ListpackEntries(16, es, redis);
    ListpackEntries(17, es, redis);
    BlobDecodes(16, ListpackBlob(es, redis), toDouble, past);
    BlobDecodes(17, ListpackBlob(es, redis), toDouble, past);
    PairsOfBlob(16, Listpack.Texts(es), ps, toDouble);
    PairsOfBlob(17, Listpack.Texts(es), ps, toDouble);
  }

  // ---- lists as nodes ---------------------------------------------------------------------------

  datatype ZipNode = ZipNode(entries: seq<Ziplist.Entry>, ignored: Str)

  type ValidZipNode = n: ZipNode | ZiplistFits(n.entries, n.ignored) ghost witness ZipNode([], [0, 0, 0, 0, 0, 0])

  ghost function ZipNodeBytes(n: ValidZipNode): Str { RdbString(ZiplistBlob(n.entries, n.ignored)) }

  ghost function ZipNodeTexts(n: ValidZipNode): seq<Str> { Ziplist.Texts(n.entries) }

  lemma ZipNodeReads(n: ValidZipNode, t: Str, past: byte)
    ensures ParseZipNode(ZipNodeBytes(n) + t, past) == Ok(ZipNodeTexts(n), t) && |ZipNodeBytes(n)| >= 1
  {
    ZiplistEntries(10, n.entries, n.ignored);
    hide ZiplistBlob, Ziplist.ParseZiplist, Ziplist.Texts, ParseString;
    StringInverse(ZiplistBlob(n.entries, n.ignored), t, past);
  }

  /** A list split over any ziplists restores to their elements, one after the other. */
  lemma ZipNodesRestore(nodes: seq<ValidZipNode>, toDouble: ToDouble, past: byte)
    requires |nodes| < 0x1_0000_0000_0000_0000
    ensures Decode([14] + CountedBytes(nodes, ZipNodeBytes), toDouble, past) ==
            if |nodes| <= MAX_ENTRIES then Some(ListContent(Concat(Values(nodes, ZipNodeTexts)))) else None
  {
    var one, good := NodeParser(false, past), (n: ValidZipNode) => true;
    forall i, t | 0 <= i < |nodes|
      ensures one(ZipNodeBytes(nodes[i]) + t) == Ok(ZipNodeTexts(nodes[i]), t) && |ZipNodeBytes(nodes[i])| >= 1
    {
      ZipNodeReads(nodes[i], t, past);
    }
    CountedReadsIff(nodes, ZipNodeBytes, good, ZipNodeTexts, one, 1);
    DecodeNodes(CountedBytes(nodes, ZipNodeBytes), toDouble, past);
  }

  lemma DecodeNodes(s: Str, toDouble: ToDouble, past: byte)
    ensures var l := Counted(s, 1, NodeParser(false, past));
      Decode([14] + s, toDouble, past) == if l.None? then None else Some(ListContent(Concat(l.value)))
    ensures var l := Counted(s, 1, NodeParser(true, past));
      Decode([18] + s, toDouble, past) == if l.None? then None else Some(ListContent(Concat(l.value)))
  {
    hide Counted, Concat, NodeParser;
    assert ([14] + s)[1..] == s && ([18] + s)[1..] == s;
  }

  /** A node of the newer kind: one string by itself, or a listpack. */
  datatype PackNode = Single(s: Str) | Packed(entries: seq<Listpack.Entry>, redis: bool) {
    ghost predicate Fits() {
      match this
      case Single(s) => |s| < 0x1_0000_0000_0000_0000
      case Packed(es, redis) => ListpackFits(es, redis)
    }
  }

  type ValidPackNode = n: PackNode | n.Fits() ghost witness Single([])

  ghost function PackNodeBytes(n: ValidPackNode): Str {
    match n
    case Single(s) => [1] + RdbString(s)
    case Packed(es, redis) => [2] + RdbString(ListpackBlob(es, redis))
  }

  ghost function PackNodeTexts(n: ValidPackNode): seq<Str> {
    match n
    case Single(s) => [s]
    case Packed(es, _) => Listpack.Texts(es)
  }

  ghost predicate PackNodeReadable(n: ValidPackNode) { n.Packed? ==> Readable(n.entries, n.redis) }

  lemma PackNodeReads(n: ValidPackNode, t: Str, past: byte)
    ensures |PackNodeBytes(n)| >= 1
    ensures ParsePackNode(PackNodeBytes(n) + t, past) == if PackNodeReadable(n) then Ok(PackNodeTexts(n), t) else Bad
  {
    hide ListpackBlob, Listpack.ParseListpack, Listpack.Texts, ParseString, RdbString, Readable;
    var blob := if n.Single? then n.s else ListpackBlob(n.entries, n.redis);
    if n.Packed? {
      ListpackParses(n.entries, n.redis);
    }
    StringInverse(blob, t, past);
    var mark: byte := if n.Single? then 1 else 2;
    Assoc([mark], RdbString(blob), t);
    assert ([mark] + (RdbString(blob) + t))[1..] == RdbString(blob) + t;
  }

  /** A list split over any such nodes restores to their elements, one after the other, exactly when every listpack
      among them can be read. */
  lemma PackNodesRestoreIff(nodes: seq<ValidPackNode>, toDouble: ToDouble, past: byte)
    requires |nodes| < 0x1_0000_0000_0000_0000
    ensures Decode([18] + CountedBytes(nodes, PackNodeBytes), toDouble, past) ==
            if |nodes| <= MAX_ENTRIES && AllGood(nodes, PackNodeReadable)
            then Some(ListContent(Concat(Values(nodes, PackNodeTexts)))) else None
  {
    var one := NodeParser(true, past);
    forall i, t | 0 <= i < |nodes|
      ensures |PackNodeBytes(nodes[i])| >= 1
      ensures one(PackNodeBytes(nodes[i]) + t) ==
              if PackNodeReadable(nodes[i]) then Ok(PackNodeTexts(nodes[i]), t) else Bad
    {
      PackNodeReads(nodes[i], t, past);
    }
    CountedReadsIff(nodes, PackNodeBytes, PackNodeReadable, PackNodeTexts, one, 1);
    DecodeNodes(CountedBytes(nodes, PackNodeBytes), toDouble, past);
  }

  // ---- scores as text ---------------------------------------------------------------------------

  datatype ScoreText = NotANumber | Infinite | MinusInfinite | Text(t: Str) {
    function Bytes(): Str {
      match this
      case NotANumber => [253]
      case Infinite => [254]
      case MinusInfinite => [255]
      case Text(t) => if |t| < 253 then [|t|] + t else []
    }

    function Number(toDouble: ToDouble): Option<Score> {
      match this
      case NotANumber => Some(NAN)
      case Infinite => Some(INFINITY)
      case MinusInfinite => Some(MINUS_INFINITY)
      case Text(t) => toDouble(t)
    }
  }

  type TextItem = x: (ScoreText, Str) |
    (x.0.Text? ==> |x.0.t| < 253) && |x.1| < 0x1_0000_0000_0000_0000 witness (NotANumber, [])

  function TextItemBytes(x: TextItem): Str { RdbString(x.1) + x.0.Bytes() }

  function IsNumber(toDouble: ToDouble): TextItem -> bool { (x: TextItem) => x.0.Number(toDouble).Some? }

  function ItemValue(toDouble: ToDouble): TextItem -> (Score, Str) {
    (x: TextItem) => var n := x.0.Number(toDouble); (if n.Some? then n.value else 0, x.1)
  }

  lemma TextItemReads(x: TextItem, toDouble: ToDouble, past: byte, t: Str)
    ensures |TextItemBytes(x)| >= 2
    ensures ParseScored(TextItemBytes(x) + t, toDouble, past) ==
            var n := x.0.Number(toDouble); if n.Some? then Ok((n.value, x.1), t) else Bad
  {
    ScoreReads(x.0, toDouble, t);
    assert |RdbString(x.1)| >= 1 && |x.0.Bytes()| >= 1;
    hide ParseString, ParseScore, RdbString, ScoreText.Bytes;
    StringInverse(x.1, x.0.Bytes() + t, past);
    Assoc(RdbString(x.1), x.0.Bytes(), t);
  }

  lemma ScoreReads(score: ScoreText, toDouble: ToDouble, t: Str)
    requires score.Text? ==> |score.t| < 253
    ensures ParseScore(score.Bytes() + t, toDouble) ==
            var n := score.Number(toDouble); if n.Some? then Ok(n.value, t) else Bad
  {
    var s := score.Bytes() + t;
    if score.Text? {
      TakeInverse(score.t, t);
      assert s[1..] == score.t + t;
    } else {
      assert s[1..] == t;
    }
  }

  /** Sorted sets with scores as text restore exactly when every score spells a number, within the cap. */
  lemma TextScoresRestoreIff(items: seq<TextItem>, toDouble: ToDouble, past: byte)
    requires |items| < 0x1_0000_0000_0000_0000
    ensures Decode([3] + CountedBytes(items, TextItemBytes), toDouble, past) ==
            if |items| <= MAX_ENTRIES && AllGood(items, IsNumber(toDouble))
            then Some(ZsetContent(Values(items, ItemValue(toDouble)))) else None
  {
    TextItemsRead(items, toDouble, past);
    var one := ItemParser(false, toDouble, past);
    CountedReadsIff(items, TextItemBytes, IsNumber(toDouble), ItemValue(toDouble), one, 2);
    hide *;
    DecodeTextScores(CountedBytes(items, TextItemBytes), toDouble, past);
  }

  lemma TextItemsRead(items: seq<TextItem>, toDouble: ToDouble, past: byte)
    ensures Reads(items, TextItemBytes, IsNumber(toDouble), ItemValue(toDouble), ItemParser(false, toDouble, past))
    ensures forall i :: 0 <= i < |items| ==> |TextItemBytes(items[i])| >= 2
  {
    hide ParseScored, TextItemBytes, ScoreText.Number;
    var one, good, val := ItemParser(false, toDouble, past), IsNumber(toDouble), ItemValue(toDouble);
    forall i, t | 0 <= i < |items|
      ensures |TextItemBytes(items[i])| >= 2
      ensures one(TextItemBytes(items[i]) + t) == if good(items[i]) then Ok(val(items[i]), t) else Bad
    {
      TextItemReads(items[i], toDouble, past, t);
    }
    forall i | 0 <= i < |items| ensures |TextItemBytes(items[i])| >= 2 {
      TextItemReads(items[i], toDouble, past, []);
    }
  }

  lemma DecodeTextScores(s: Str, toDouble: ToDouble, past: byte)
    ensures var z := Counted(s, 2, ItemParser(false, toDouble, past));
      Decode([3] + s, toDouble, past) == if z.None? then None else Some(ZsetContent(z.value))
  {
    hide Counted, ItemParser;
    assert ([3] + s)[1..] == s;
  }
}
