/** DUMP and RESTORE end to end: an object's dump is decoded, re-encoded for storage and loaded again
    (src/redis_rdb_restore.cpp:948-1028, 1067-1489). */
module RdbRestore {
  import opened Bytes
  import opened Objects
  import opened ObjectCodec
  import opened Rdb
  import opened RdbDecode
  import opened RdbDump
  import opened ZsetObject
  import HashObject
  import ListObject
  import ListRuns
  import ListSpec
  import SetObject
  import StringObject

  /** Any enumeration of a set. */
  method Enumerate(s: set<Str>) returns (order: seq<Str>)
    ensures IsOrder(order, s)
  {
    order := [];
    var rest := s;
    while rest != {}
      invariant rest <= s && Distinct(order) && SetOf(order) == s - rest
      decreases |rest|
    {
      var x :| x in rest;
      rest := rest - {x};
      assert x !in SetOf(order);
      assert SetOf(order + [x]) == SetOf(order) + {x};
      order := order + [x];
    }
  }

  // ---- dumping ----------------------------------------------------------------------------------

  lemma {:induction false} EncodeManySnoc<T>(items: seq<T>, i: nat, enc: T -> Str)
    requires i < |items|
    ensures EncodeMany(items[..i + 1], enc) == EncodeMany(items[..i], enc) + enc(items[i])
  {
    if i == 0 {
      assert items[..1][1..] == [];
      assert EncodeMany(items[..1], enc) == enc(items[0]) + [];
    } else {
      EncodeManySnoc(items[1..], i - 1, enc);
      assert items[..i + 1][1..] == items[1..][..i] && items[..i][1..] == items[1..][..i - 1];
      Assoc(enc(items[0]), EncodeMany(items[1..][..i - 1], enc), enc(items[i]));
    }
  }

  method DumpStrings(kind: byte, items: seq<Str>) returns (out: Str)
    ensures out == [kind] + CountedBytes(items, RdbString)
  {
    var head := [kind] + RdbLen(|items|);
    out := head;
    for i := 0 to |items|
      invariant out == head + EncodeMany(items[..i], RdbString)
    {
      hide EncodeMany, RdbString;
      EncodeManySnoc(items, i, RdbString);
      Assoc(head, EncodeMany(items[..i], RdbString), RdbString(items[i]));
      out := out + RdbString(items[i]);
    }
    assert items[..|items|] == items;
    Assoc([kind], RdbLen(|items|), EncodeMany(items, RdbString));
  }

  method DumpPairs(kind: byte, items: seq<(Str, Str)>) returns (out: Str)
    ensures out == [kind] + CountedBytes(items, RdbPair)
  {
    var head := [kind] + RdbLen(|items|);
    out := head;
    for i := 0 to |items|
      invariant out == head + EncodeMany(items[..i], RdbPair)
    {
      hide EncodeMany, RdbString;
      EncodeManySnoc(items, i, RdbPair);
      Assoc(head, EncodeMany(items[..i], RdbPair), RdbPair(items[i]));
      Assoc(out, RdbString(items[i].0), RdbString(items[i].1));
      out := out + RdbString(items[i].0);
      out := out + RdbString(items[i].1);
    }
    assert items[..|items|] == items;
    Assoc([kind], RdbLen(|items|), EncodeMany(items, RdbPair));
  }

  method DumpScored(kind: byte, items: seq<(Score, Str)>) returns (out: Str)
    ensures out == [kind] + CountedBytes(items, RdbScored)
  {
    var head := [kind] + RdbLen(|items|);
    out := head;
    for i := 0 to |items|
      invariant out == head + EncodeMany(items[..i], RdbScored)
    {
      hide EncodeMany, RdbString, LE;
      EncodeManySnoc(items, i, RdbScored);
      Assoc(head, EncodeMany(items[..i], RdbScored), RdbScored(items[i]));
      Assoc(out, RdbString(items[i].1), LE(8, items[i].0));
      out := out + RdbString(items[i].1);
      out := out + LE(8, items[i].0);
    }
    assert items[..|items|] == items;
    Assoc([kind], RdbLen(|items|), EncodeMany(items, RdbScored));
  }

  method ConvertEloqObjectToRedisDumpPayload(v: Value) returns (dump: Str)
    ensures IsDump(v, dump)
  {
    hide CountedBytes, RdbString;
    match v
    case StringValue(s) =>
      dump := [0] + RdbString(s);
      assert Lists(StringContent(s), v) && dump == DumpBytes(StringContent(s));
    case ListValue(l) =>
      dump := DumpStrings(1, l);
      assert Lists(ListContent(l), v) && dump == DumpBytes(ListContent(l));
    case SetValue(m) =>
      var order := Enumerate(m);
      dump := DumpStrings(2, order);
      assert Lists(SetContent(order), v) && dump == DumpBytes(SetContent(order));
    case HashValue(f) =>
      var order := Enumerate(f.Keys);
      dump := DumpPairs(4, PairsOf(order, f));
      assert Lists(HashContent(PairsOf(order, f)), v) && dump == DumpBytes(HashContent(PairsOf(order, f)));
    case ZsetValue(z) =>
      var order := Enumerate(z.Keys);
      dump := DumpScored(5, ItemsOf(order, z));
      assert Lists(ZsetContent(ItemsOf(order, z)), v) && dump == DumpBytes(ZsetContent(ItemsOf(order, z)));
  }

  // ---- from decoded content to the stored form ------------------------------------------------------

  function ItemChunks(items: seq<(Score, Str)>): seq<Str> {
    seq(|items|, i requires 0 <= i < |items| => Scored(items[i].1, items[i].0))
  }

  ghost function FieldsOf(pairs: seq<(Str, Str)>): map<Str, Str> { HashObject.PutAll(map[], pairs) }

  /** The stored form: the object's type byte, then its encoding.  Sets and hashes are enumerated again; repeated
      members and fields have been merged. */
  ghost predicate IsEloq(payload: Str, c: Content) {
    match c
    case StringContent(s) => payload == [STRING] + StringObject.StringBytes(Forever, s)
    case ListContent(l) => payload == [LIST] + StringsBytes(LIST, Forever, l)
    case SetContent(l) =>
      exists order :: IsOrder(order, SetOf(l)) && payload == [SET] + StringsBytes(SET, Forever, order)
    case HashContent(ps) =>
      exists order :: IsOrder(order, FieldsOf(ps).Keys) &&
        payload == [HASH] + HashObject.HashBytes(Forever, order, FieldsOf(ps))
    case ZsetContent(items) => payload == [ZSET] + ChunksBytes(ZSET, Forever, ItemChunks(items))
  }

  method SerializeStringPayload(s: Str) returns (payload: Str)
    ensures IsEloq(payload, StringContent(s))
  {
    var obj := new StringObject.RedisStringObject(s);
    var out := obj.Serialize(Forever);
    payload := [STRING] + out;
  }

  method SerializeListPayload(elements: seq<Str>) returns (payload: Str)
    ensures IsEloq(payload, ListContent(elements))
  {
    var obj := new ListObject.RedisListObject();
    obj.CommitRPush(elements);
    assert obj.list == [] + elements == elements;
    var out := obj.Serialize(Forever);
    payload := [LIST] + out;
  }

  method SerializeSetPayload(elements: seq<Str>) returns (payload: Str)
    ensures IsEloq(payload, SetContent(elements))
  {
    var obj := new SetObject.RedisHashSetObject();
    var _ := obj.CommitSAdd(elements);
    assert obj.members == SetOf(elements);
    var order := Enumerate(obj.members);
    var out := obj.Serialize(order, Forever);
    payload := [SET] + out;
  }

  method SerializeHashPayload(pairs: seq<(Str, Str)>) returns (payload: Str)
    ensures IsEloq(payload, HashContent(pairs))
  {
    var obj := new HashObject.RedisHashObject();
    obj.CommitHset(pairs);
    assert obj.fields == FieldsOf(pairs);
    var order := Enumerate(obj.fields.Keys);
    payload := obj.Serialize(order, Forever);
    payload := [HASH] + payload;
    assert payload == [HASH] + HashObject.HashBytes(Forever, order, FieldsOf(pairs));
  }

  /** Sorted sets are written without building the object. */
  method SerializeZSetPayload(items: seq<(Score, Str)>) returns (payload: Str)
    ensures IsEloq(payload, ZsetContent(items))
  {
    ghost var chunks := ItemChunks(items);
    var head := [ZSET] + ([ZSET] + LE(4, |items|));
    payload := head;
    for i := 0 to |items|
      invariant payload == head + Join(chunks[..i])
    {
      hide Join, LE;
      var member := items[i].1;
      JoinSnoc(chunks, i);
      Assoc(head, Join(chunks[..i]), chunks[i]);
      payload := payload + (LE(4, |member|) + member + LE(8, items[i].0));
    }
    assert chunks[..|items|] == chunks;
    Assoc([ZSET], LE(4, |items|), Join(chunks));
    Assoc([ZSET], [ZSET] + LE(4, |items|), Join(chunks));
  }

  /** A payload is accepted exactly when it decodes, and then becomes the stored form of what it holds. */
  method DecodeRedisObjectPayload(payload: Str, toDouble: ToDouble, past: byte) returns (ok: bool, eloq: Str)
    ensures ok == Decode(payload, toDouble, past).Some?
    ensures ok ==> IsEloq(eloq, Decode(payload, toDouble, past).value)
  {
    hide Decode, IsEloq;
    var content := DecodeContent(payload, toDouble, past);
    if content == None {
      return false, [];
    }
    ok := true;
    match content.value
    case StringContent(s) => eloq := SerializeStringPayload(s);
    case ListContent(l) => eloq := SerializeListPayload(l);
    case SetContent(l) => eloq := SerializeSetPayload(l);
    case HashContent(ps) => eloq := SerializeHashPayload(ps);
    case ZsetContent(items) => eloq := SerializeZSetPayload(items);
  }

  // ---- loading and the round trip -----------------------------------------------------------------

  /** Sizes within 32 bits. */
  ghost predicate Storable(v: Value) {
    match v
    case StringValue(s) => |s| < 0x1_0000_0000
    case ListValue(l) => Fits32(l)
    case SetValue(m) => |m| < 0x1_0000_0000 && forall x :: x in m ==> |x| < 0x1_0000_0000
    case HashValue(f) => HashObject.FieldsFit32(f)
    case ZsetValue(z) => |z| < 0x1_0000_0000 && forall x :: x in z ==> |x| < 0x1_0000_0000
  }

  /** The objects that loading gives back: all but the sorted sets of several members with a NaN among the scores. */
  ghost predicate Loadable(v: Value) { v.ZsetValue? ==> Clean(v.scores) }

  /** Whatever a run of list commands leaves behind can be stored and dumped. */
  lemma RunsAreStorable(l: seq<Str>, cmds: seq<ListRuns.Cmd>)
    requires ListSpec.EncodedLength(l) <= MAX_OBJECT_SIZE + 4
    ensures Storable(ListValue(ListRuns.Primary(l, cmds)))
  {
    ListRuns.RunIsBounded(l, cmds);
    SizedBounds(ListRuns.Primary(l, cmds));
  }

  lemma OrderFits(order: seq<Str>, m: set<Str>)
    requires IsOrder(order, m) && |m| < 0x1_0000_0000 && forall x :: x in m ==> |x| < 0x1_0000_0000
    ensures Fits32(order) && |order| == |m|
  {
    DistinctSize(order);
    assert forall i :: 0 <= i < |order| ==> order[i] in SetOf(order);
  }

  lemma ListedEntries(c: Content, v: Value)
    requires Lists(c, v) && Storable(v)
    ensures Encodable(c) && Entries(c) == Count(v)
  {
    match v
    case StringValue(_) =>
    case ListValue(_) =>
    case SetValue(m) => OrderFits(c.elements, m);
    case HashValue(f) =>
      var order :| IsOrder(order, f.Keys) && c.pairs == PairsOf(order, f);
      OrderFits(order, f.Keys);
      assert |f| == |f.Keys|;
      assert forall i :: 0 <= i < |order| ==> order[i] in SetOf(order);
    case ZsetValue(z) =>
      var order :| IsOrder(order, z.Keys) && c.items == ItemsOf(order, z);
      OrderFits(order, z.Keys);
      assert |z| == |z.Keys|;
  }

  lemma {:induction false} PutAllPairs(m: map<Str, Str>, order: seq<Str>, f: map<Str, Str>)
    requires forall x :: x in order ==> x in f
    ensures HashObject.PutAll(m, PairsOf(order, f)) == m + Restrict(f, order)
    decreases |order|
  {
    if order == [] {
      assert Restrict(f, order) == map[];
    } else {
      var pairs := PairsOf(order, f);
      assert pairs[1..] == PairsOf(order[1..], f);
      PutAllPairs(m[order[0] := f[order[0]]], order[1..], f);
    }
  }

  lemma FieldsOfListed(order: seq<Str>, f: map<Str, Str>)
    requires IsOrder(order, f.Keys)
    ensures FieldsOf(PairsOf(order, f)) == f
  {
    PutAllPairs(map[], order, f);
    assert forall k :: k in SetOf(order) <==> k in f;
  }

  lemma HoldsAfterType(tag: byte, body: Str)
    ensures Holds([tag] + body, 1, body)
  {
  }

  /** Load a stored object, whichever type its first byte names. */
  method Load(payload: Str, ghost c: Content, ghost v: Value) returns (loaded: Value)
    requires IsEloq(payload, c) && Lists(c, v) && Storable(v)
    ensures loaded == v <==> Loadable(v)
  {
    if payload[0] == STRING {
      loaded := LoadString(payload, c, v);
    } else if payload[0] == LIST {
      loaded := LoadList(payload, c, v);
    } else if payload[0] == SET {
      loaded := LoadSet(payload, c, v);
    } else if payload[0] == HASH {
      loaded := LoadHash(payload, c, v);
    } else {
      loaded := LoadZset(payload, c, v);
    }
  }

  method LoadString(payload: Str, ghost c: Content, ghost v: Value) returns (loaded: Value)
    requires c.StringContent? && IsEloq(payload, c) && Lists(c, v) && Storable(v)
    ensures loaded == v
  {
    var obj := new StringObject.RedisStringObject([]);
    HoldsAfterType(STRING, StringObject.StringBytes(Forever, c.s));
    var _, _ := obj.Deserialize(payload, 1, false, Forever, c.s);
    loaded := StringValue(obj.str);
  }

  method LoadList(payload: Str, ghost c: Content, ghost v: Value) returns (loaded: Value)
    requires c.ListContent? && IsEloq(payload, c) && Lists(c, v) && Storable(v)
    ensures loaded == v
  {
    var obj := new ListObject.RedisListObject();
    HoldsAfterType(LIST, StringsBytes(LIST, Forever, c.elements));
    var _, _ := obj.Deserialize(payload, 1, false, Forever, c.elements);
    loaded := ListValue(obj.list);
  }

  method LoadSet(payload: Str, ghost c: Content, ghost v: Value) returns (loaded: Value)
    requires c.SetContent? && IsEloq(payload, c) && Lists(c, v) && Storable(v)
    ensures loaded == v
  {
    var obj := new SetObject.RedisHashSetObject();
    ghost var order :| IsOrder(order, SetOf(c.elements)) && payload == [SET] + StringsBytes(SET, Forever, order);
    HoldsAfterType(SET, StringsBytes(SET, Forever, order));
    OrderFits(order, v.members);
    var _, _ := obj.Deserialize(payload, 1, false, Forever, order);
    loaded := SetValue(obj.members);
  }

  method LoadHash(payload: Str, ghost c: Content, ghost v: Value) returns (loaded: Value)
    requires c.HashContent? && IsEloq(payload, c) && Lists(c, v) && Storable(v)
    ensures loaded == v
  {
    var obj := new HashObject.RedisHashObject();
    ghost var listed :| IsOrder(listed, v.fields.Keys) && c.pairs == PairsOf(listed, v.fields);
    FieldsOfListed(listed, v.fields);
    ghost var order :| IsOrder(order, FieldsOf(c.pairs).Keys) &&
      payload == [HASH] + HashObject.HashBytes(Forever, order, FieldsOf(c.pairs));
    HoldsAfterType(HASH, HashObject.HashBytes(Forever, order, v.fields));
    var _, _ := obj.Deserialize(payload, 1, false, Forever, order, v.fields);
    loaded := HashValue(obj.fields);
  }

  method LoadZset(payload: Str, ghost c: Content, ghost v: Value) returns (loaded: Value)
    requires c.ZsetContent? && IsEloq(payload, c) && Lists(c, v) && Storable(v)
    ensures loaded == v <==> Loadable(v)
  {
    var obj := new RedisZsetObject();
    ghost var order :| IsOrder(order, v.scores.Keys) && c.items == ItemsOf(order, v.scores);
    OrderFits(order, v.scores.Keys);
    assert ItemChunks(c.items) == ScoredItems(order, v.scores);
    HoldsAfterType(ZSET, ZsetBytes(Forever, order, v.scores));
    var _, _ := obj.Deserialize(payload, 1, false, Forever, order, v.scores);
    loaded := ZsetValue(obj.scores);
  }

  /** DUMP followed by RESTORE is refused exactly above 2^20 entries, and otherwise gives an equal object, unless that
      is a sorted set of several members with a NaN among the scores. */
  method DumpThenRestore(v: Value, toDouble: ToDouble, past: byte) returns (ok: bool, restored: Value)
    requires Storable(v)
    ensures ok <==> Count(v) <= MAX_ENTRIES
    ensures ok ==> (restored == v <==> Loadable(v))
  {
    hide Decode, IsEloq, Lists, DumpBytes, Storable, Loadable;
    var dump := ConvertEloqObjectToRedisDumpPayload(v);
    ghost var c :| Lists(c, v) && dump == DumpBytes(c);
    ListedEntries(c, v);
    DecodeInvertsDump(c, toDouble, past);
    var eloq;
    ok, eloq := DecodeRedisObjectPayload(dump, toDouble, past);
    restored := StringValue([]);
    if ok {
      restored := Load(eloq, c, v);
    }
  }
}
