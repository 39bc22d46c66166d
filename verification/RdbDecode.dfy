/** What the object payload of a RESTORE command holds (DecodeRedisObjectPayload, src/redis_rdb_restore.cpp:140-156 and
    1067-1415).  Converting decimal text to a double is left to the parameter `toDouble`. */
module RdbDecode {
  import opened Bytes
  import opened Rdb
  import opened ZsetObject
  import Intset
  import Listpack
  import Ziplist

  /** The decoded entries, in the order they were read. */
  datatype Content =
    | StringContent(s: Str)
    | ListContent(elements: seq<Str>)
    | SetContent(elements: seq<Str>)
    | HashContent(pairs: seq<(Str, Str)>)
    | ZsetContent(items: seq<(Score, Str)>)

  type ToDouble = Str -> Option<Score>

  const MAX_ENTRIES: nat := 1048576

  /** A count is refused if it is over the cap, or if so many items cannot fit into what remains. */
  predicate ValidateCount(count: nat, minBytesPerItem: nat, remaining: nat) {
    count <= MAX_ENTRIES && (minBytesPerItem == 0 || count <= remaining / minBytesPerItem)
  }

  // ---- items ------------------------------------------------------------------------------------

  function ParsePair(s: Str, past: byte): Parsed<(Str, Str)> {
    var field := ParseString(s, past);
    if field.Bad? then Bad
    else
      var value := ParseString(field.rest, past);
      if value.Bad? then Bad else Ok((field.value, value.value), value.rest)
  }

  /** A score as eight bytes. */
  function ParseBinary(s: Str, past: byte): Parsed<(Score, Str)> {
    var member := ParseString(s, past);
    if member.Bad? || |member.rest| < 8 then Bad
    else Ok((ScoreOf(member.rest[..8]), member.value), member.rest[8..])
  }

  function ScoreOf(bytes: Str): Score
    requires |bytes| == 8
  {
    FromLEBound(bytes);
    Pow256Values();
    FromLE(bytes)
  }

  const NAN: Score := 0x7FF8_0000_0000_0000
  const INFINITY: Score := 0x7FF0_0000_0000_0000
  const MINUS_INFINITY: Score := 0xFFF0_0000_0000_0000

  /** A score as text behind its length, with three lengths for special values. */
  function ParseScore(s: Str, toDouble: ToDouble): Parsed<Score> {
    if s == [] then Bad
    else if s[0] == 253 then Ok(NAN, s[1..])
    else if s[0] == 254 then Ok(INFINITY, s[1..])
    else if s[0] == 255 then Ok(MINUS_INFINITY, s[1..])
    else
      var text := TakeBytes(s[1..], s[0]);
      if text.Bad? || toDouble(text.value).None? then Bad else Ok(toDouble(text.value).value, text.rest)
  }

  function ParseScored(s: Str, toDouble: ToDouble, past: byte): Parsed<(Score, Str)> {
    var member := ParseString(s, past);
    if member.Bad? then Bad
    else
      var score := ParseScore(member.rest, toDouble);
      if score.Bad? then Bad else Ok((score.value, member.value), score.rest)
  }

  /** A node of a list: a ziplist, or a single string or listpack behind a container byte. */
  function ParseZipNode(s: Str, past: byte): Parsed<seq<Str>> {
    var blob := ParseString(s, past);
    if blob.Bad? then Bad
    else
      var es := Ziplist.ParseZiplist(blob.value);
      if es.Bad? then Bad else Ok(es.value, blob.rest)
  }

  function ParsePackNode(s: Str, past: byte): Parsed<seq<Str>> {
    if s == [] then Bad
    else
      var blob := ParseString(s[1..], past);
      if blob.Bad? then Bad
      else if s[0] == 1 then Ok([blob.value], blob.rest)
      else if s[0] != 2 then Bad
      else
        var es := Listpack.ParseListpack(blob.value);
        if es.Bad? then Bad else Ok(es.value, blob.rest)
  }

  function StringParser(past: byte): Str -> Parsed<Str> { s => ParseString(s, past) }

  function PairParser(past: byte): Str -> Parsed<(Str, Str)> { s => ParsePair(s, past) }

  function ItemParser(binary: bool, toDouble: ToDouble, past: byte): Str -> Parsed<(Score, Str)> {
    if binary then (s => ParseBinary(s, past)) else (s => ParseScored(s, toDouble, past))
  }

  function NodeParser(packed: bool, past: byte): Str -> Parsed<seq<Str>> {
    if packed then (s => ParsePackNode(s, past)) else (s => ParseZipNode(s, past))
  }

  function Concat(nodes: seq<seq<Str>>): seq<Str> {
    if nodes == [] then [] else nodes[0] + Concat(nodes[1..])
  }

  // ---- whole payloads ---------------------------------------------------------------------------

  function Many<T>(s: Str, n: nat, one: Str -> Parsed<T>): Parsed<seq<T>>
    decreases n
  {
    if n == 0 then Ok([], s)
    else
      var item := one(s);
      if item.Bad? then Bad
      else
        var more := Many(item.rest, n - 1, one);
        if more.Bad? then Bad else Ok([item.value] + more.value, more.rest)
  }

  function Counted<T>(s: Str, min: nat, one: Str -> Parsed<T>): Option<seq<T>> {
    var len := ParsePlain(s);
    if len.Bad? || !ValidateCount(len.value, min, |len.rest|) then None
    else
      var items := Many(len.rest, len.value, one);
      if items.Bad? || items.rest != [] then None else Some(items.value)
  }

  function Blob(s: Str, past: byte): Option<Str> {
    var blob := ParseString(s, past);
    if blob.Bad? || blob.rest != [] then None else Some(blob.value)
  }

  function PairUp(l: seq<Str>): seq<(Str, Str)>
    requires |l| % 2 == 0
  {
    if l == [] then [] else [(l[0], l[1])] + PairUp(l[2..])
  }

  function ScoreUp(l: seq<Str>, toDouble: ToDouble): Option<seq<(Score, Str)>>
    requires |l| % 2 == 0
  {
    if l == [] then Some([])
    else
      var score, more := toDouble(l[1]), ScoreUp(l[2..], toDouble);
      if score.None? || more.None? then None else Some([(score.value, l[0])] + more.value)
  }

  /** The entries of a blob of the given type. */
  function BlobEntries(kind: int, blob: Str): Option<seq<Str>> {
    var es :=
      if kind == 10 || kind == 12 || kind == 13 then Ziplist.ParseZiplist(blob)
      else if kind == 11 then Intset.ParseIntset(blob)
      else Listpack.ParseListpack(blob);
    if es.Bad? then None else Some(es.value)
  }

  function BlobContent(kind: int, es: seq<Str>, toDouble: ToDouble): Option<Content> {
    if kind == 10 then Some(ListContent(es))
    else if kind == 11 || kind == 20 then Some(SetContent(es))
    else if |es| % 2 != 0 then None
    else if kind == 13 || kind == 16 then Some(HashContent(PairUp(es)))
    else
      var items := ScoreUp(es, toDouble);
      if items.None? then None else Some(ZsetContent(items.value))
  }

  predicate IsBlobKind(kind: int) { 10 <= kind <= 13 || kind == 16 || kind == 17 || kind == 20 }

  function Decode(payload: Str, toDouble: ToDouble, past: byte): Option<Content> {
    if payload == [] then None
    else
      var kind: int, s := payload[0], payload[1..];
      if kind == 0 then
        var b := Blob(s, past); if b.None? then None else Some(StringContent(b.value))
      else if kind == 1 then
        var l := Counted(s, 1, StringParser(past)); if l.None? then None else Some(ListContent(l.value))
      else if kind == 2 then
        var l := Counted(s, 1, StringParser(past)); if l.None? then None else Some(SetContent(l.value))
      else if kind == 3 then
        var z := Counted(s, 2, ItemParser(false, toDouble, past)); if z.None? then None else Some(ZsetContent(z.value))
      else if kind == 4 then
        var h := Counted(s, 2, PairParser(past)); if h.None? then None else Some(HashContent(h.value))
      else if kind == 5 then
        var z := Counted(s, 2, ItemParser(true, toDouble, past)); if z.None? then None else Some(ZsetContent(z.value))
      else if kind == 14 then
        var l := Counted(s, 1, NodeParser(false, past)); if l.None? then None else Some(ListContent(Concat(l.value)))
      else if kind == 18 then
        var l := Counted(s, 1, NodeParser(true, past)); if l.None? then None else Some(ListContent(Concat(l.value)))
      else if IsBlobKind(kind) then
        var b := Blob(s, past);
        if b.None? then None
        else
          var es := BlobEntries(kind, b.value);
          if es.None? then None else BlobContent(kind, es.value, toDouble)
      else None
  }

  // ---- reading items ------------------------------------------------------------------------------

  method ReadPair(r: Reader) returns (ok: bool, pair: (Str, Str))
    requires r.Valid()
    modifies r`pos, r`overran
    ensures r.Valid() && ok == ParsePair(old(r.Rest()), r.past).Ok?
    ensures ok ==> Ok(pair, r.Rest()) == ParsePair(old(r.Rest()), r.past)
  {
    hide ParseString;
    var field, value;
    pair := ([], []);
    ok, field := r.ReadString();
    if ok {
      ok, value := r.ReadString();
      pair := (field, value);
    }
  }

  method ReadBinary(r: Reader) returns (ok: bool, item: (Score, Str))
    requires r.Valid()
    modifies r`pos, r`overran
    ensures r.Valid() && ok == ParseBinary(old(r.Rest()), r.past).Ok?
    ensures ok ==> Ok(item, r.Rest()) == ParseBinary(old(r.Rest()), r.past)
  {
    hide ParseString;
    var member, bytes;
    item := (0, []);
    ok, member := r.ReadString();
    if ok {
      ok, bytes := r.ReadBytes(8);
      if ok {
        item := (ScoreOf(bytes), member);
      }
    }
  }

  method ReadZSetScore(r: Reader, toDouble: ToDouble) returns (ok: bool, score: Score)
    requires r.Valid()
    modifies r`pos, r`overran
    ensures r.Valid() && ok == ParseScore(old(r.Rest()), toDouble).Ok?
    ensures ok ==> Ok(score, r.Rest()) == ParseScore(old(r.Rest()), toDouble)
  {
    var len, bytes;
    score := 0;
    ok, len := r.ReadByte();
    if !ok {
      return;
    }
    if len == 253 {
      return true, NAN;
    }
    if len == 254 {
      return true, INFINITY;
    }
    if len == 255 {
      return true, MINUS_INFINITY;
    }
    ok, bytes := r.ReadBytes(len);
    if ok {
      var value := toDouble(bytes);
      ok := value.Some?;
      score := if ok then value.value else 0;
    }
  }

  method ReadScored(r: Reader, toDouble: ToDouble) returns (ok: bool, item: (Score, Str))
    requires r.Valid()
    modifies r`pos, r`overran
    ensures r.Valid() && ok == ParseScored(old(r.Rest()), toDouble, r.past).Ok?
    ensures ok ==> Ok(item, r.Rest()) == ParseScored(old(r.Rest()), toDouble, r.past)
  {
    hide ParseString, ParseScore;
    var member, score;
    item := (0, []);
    ok, member := r.ReadString();
    if ok {
      ok, score := ReadZSetScore(r, toDouble);
      item := (score, member);
    }
  }

  method ReadZipNode(r: Reader) returns (ok: bool, entries: seq<Str>)
    requires r.Valid()
    modifies r`pos, r`overran
    ensures r.Valid() && ok == ParseZipNode(old(r.Rest()), r.past).Ok?
    ensures ok ==> entries == ParseZipNode(old(r.Rest()), r.past).value
    ensures ok ==> r.Rest() == ParseZipNode(old(r.Rest()), r.past).rest
  {
    hide ParseString;
    var blob;
    entries := [];
    ok, blob := r.ReadString();
    if ok {
      ok, entries := Ziplist.ReadZipListAll(blob);
    }
  }

  method ReadPackNode(r: Reader) returns (ok: bool, entries: seq<Str>)
    requires r.Valid()
    modifies r`pos, r`overran
    ensures r.Valid() && ok == ParsePackNode(old(r.Rest()), r.past).Ok?
    ensures ok ==> entries == ParsePackNode(old(r.Rest()), r.past).value
    ensures ok ==> r.Rest() == ParsePackNode(old(r.Rest()), r.past).rest
  {
    hide ParseString;
    var container, blob;
    entries := [];
    ok, container := r.ReadByte();
    if !ok {
      return;
    }
    ok, blob := r.ReadString();
    if !ok {
      return;
    }
    if container == 1 {
      return true, [blob];
    }
    if container != 2 {
      return false, [];
    }
    ok, entries := Listpack.ReadListPackAll(blob);
  }

  // ---- reading collections ------------------------------------------------------------------------

  /** The count, and the check on it. */
  method ReadCount(r: Reader, min: nat) returns (ok: bool, len: nat)
    requires r.Valid() && min > 0
    modifies r`pos, r`overran
    ensures r.Valid()
    ensures var p := ParsePlain(old(r.Rest()));
      && (ok <==> p.Ok? && ValidateCount(p.value, min, |p.rest|))
      && (ok ==> len == p.value && r.Rest() == p.rest)
  {
    hide ParsePlain;
    ok, len := r.ReadPlain();
    if ok {
      var remaining := r.Remaining();
      ok := len <= MAX_ENTRIES && len <= remaining / min;
    }
  }

  /** What is left to read when some items have been read. */
  ghost predicate Underway<T>(whole: Parsed<seq<T>>, items: seq<T>, more: Parsed<seq<T>>) {
    if more.Bad? then whole.Bad? else whole.Ok? && whole.value == items + more.value && whole.rest == more.rest
  }

  lemma UnderwayStep<T>(whole: Parsed<seq<T>>, items: seq<T>, s: Str, n: nat, one: Str -> Parsed<T>)
    requires n > 0 && Underway(whole, items, Many(s, n, one))
    ensures one(s).Bad? ==> whole.Bad?
    ensures one(s).Ok? ==> Underway(whole, items + [one(s).value], Many(one(s).rest, n - 1, one))
  {
    var more := Many(s, n, one);
    if one(s).Ok? && more.Ok? {
      var tail := Many(one(s).rest, n - 1, one).value;
      assert items + ([one(s).value] + tail) == items + [one(s).value] + tail;
    }
  }

  method ReadStrings(r: Reader) returns (ok: bool, items: seq<Str>)
    requires r.Valid()
    modifies r`pos, r`overran
    ensures ok == Counted(old(r.Rest()), 1, StringParser(r.past)).Some?
    ensures ok ==> items == Counted(old(r.Rest()), 1, StringParser(r.past)).value
  {
    hide ParseString, Many;
    items := [];
    var len;
    ok, len := ReadCount(r, 1);
    if !ok {
      return;
    }
    ghost var whole := Many(r.Rest(), len, StringParser(r.past));
    Started(r.Rest(), len, StringParser(r.past));
    for i := 0 to len
      invariant r.Valid() && Underway(whole, items, Many(r.Rest(), len - i, StringParser(r.past)))
    {
      UnderwayStep(whole, items, r.Rest(), len - i, StringParser(r.past));
      var item;
      ok, item := r.ReadString();
      if !ok {
        return;
      }
      items := items + [item];
    }
    Finished(whole, items, r.Rest(), StringParser(r.past));
    var left := r.Remaining();
    ok := left == 0;
  }

  lemma Started<T>(s: Str, n: nat, one: Str -> Parsed<T>)
    ensures Underway(Many(s, n, one), [], Many(s, n, one))
  {
    var whole := Many(s, n, one);
    if whole.Ok? {
      assert [] + whole.value == whole.value;
    }
  }

  lemma Finished<T>(whole: Parsed<seq<T>>, items: seq<T>, s: Str, one: Str -> Parsed<T>)
    requires Underway(whole, items, Many(s, 0, one))
    ensures whole.Ok? && whole.value == items && whole.rest == s
  {
    assert items + [] == items;
  }

  method ReadPairs(r: Reader) returns (ok: bool, items: seq<(Str, Str)>)
    requires r.Valid()
    modifies r`pos, r`overran
    ensures ok == Counted(old(r.Rest()), 2, PairParser(r.past)).Some?
    ensures ok ==> items == Counted(old(r.Rest()), 2, PairParser(r.past)).value
  {
    hide ParsePair, Many;
    items := [];
    var len;
    ok, len := ReadCount(r, 2);
    if !ok {
      return;
    }
    ghost var whole := Many(r.Rest(), len, PairParser(r.past));
    Started(r.Rest(), len, PairParser(r.past));
    for i := 0 to len
      invariant r.Valid() && Underway(whole, items, Many(r.Rest(), len - i, PairParser(r.past)))
    {
      UnderwayStep(whole, items, r.Rest(), len - i, PairParser(r.past));
      var item;
      ok, item := ReadPair(r);
      if !ok {
        return;
      }
      items := items + [item];
    }
    Finished(whole, items, r.Rest(), PairParser(r.past));
    var left := r.Remaining();
    ok := left == 0;
  }

  /** Sorted sets, with scores as text or as bytes. */
  method ReadItems(r: Reader, binary: bool, toDouble: ToDouble) returns (ok: bool, items: seq<(Score, Str)>)
    requires r.Valid()
    modifies r`pos, r`overran
    ensures ok == Counted(old(r.Rest()), 2, ItemParser(binary, toDouble, r.past)).Some?
    ensures ok ==> items == Counted(old(r.Rest()), 2, ItemParser(binary, toDouble, r.past)).value
  {
    hide ParseBinary, ParseScored, Many;
    ghost var one := ItemParser(binary, toDouble, r.past);
    items := [];
    var len;
    ok, len := ReadCount(r, 2);
    if !ok {
      return;
    }
    ghost var whole := Many(r.Rest(), len, one);
    Started(r.Rest(), len, one);
    for i := 0 to len
      invariant r.Valid() && Underway(whole, items, Many(r.Rest(), len - i, one))
    {
      UnderwayStep(whole, items, r.Rest(), len - i, one);
      var item;
      if binary {
        ok, item := ReadBinary(r);
      } else {
        ok, item := ReadScored(r, toDouble);
      }
      if !ok {
        return;
      }
      items := items + [item];
    }
    Finished(whole, items, r.Rest(), one);
    var left := r.Remaining();
    ok := left == 0;
  }

  /** Lists kept as nodes: ziplists, or strings and listpacks. */
  method ReadNodes(r: Reader, packed: bool) returns (ok: bool, elements: seq<Str>)
    requires r.Valid()
    modifies r`pos, r`overran
    ensures ok == Counted(old(r.Rest()), 1, NodeParser(packed, r.past)).Some?
    ensures ok ==> elements == Concat(Counted(old(r.Rest()), 1, NodeParser(packed, r.past)).value)
  {
    hide ParsePackNode, ParseZipNode, Many, Concat;
    ghost var one := NodeParser(packed, r.past);
    elements := [];
    ghost var nodes: seq<seq<Str>> := [];
    ConcatSnoc([], []);
    var len;
    ok, len := ReadCount(r, 1);
    if !ok {
      return;
    }
    ghost var whole := Many(r.Rest(), len, one);
    Started(r.Rest(), len, one);
    for i := 0 to len
      invariant r.Valid() && Underway(whole, nodes, Many(r.Rest(), len - i, one)) && elements == Concat(nodes)
    {
      UnderwayStep(whole, nodes, r.Rest(), len - i, one);
      var entries;
      if packed {
        ok, entries := ReadPackNode(r);
      } else {
        ok, entries := ReadZipNode(r);
      }
      if !ok {
        return;
      }
      ConcatSnoc(nodes, entries);
      elements := elements + entries;
      nodes := nodes + [entries];
    }
    Finished(whole, nodes, r.Rest(), one);
    var left := r.Remaining();
    ok := left == 0;
  }

  lemma {:induction false} ConcatSnoc(nodes: seq<seq<Str>>, last: seq<Str>)
    ensures Concat([]) == []
    ensures Concat(nodes + [last]) == Concat(nodes) + last
  {
    if nodes == [] {
      assert nodes + [last] == [last];
      assert Concat([last]) == last + [];
    } else {
      ConcatSnoc(nodes[1..], last);
      assert (nodes + [last])[1..] == nodes[1..] + [last];
      assert nodes[0] + (Concat(nodes[1..]) + last) == nodes[0] + Concat(nodes[1..]) + last;
    }
  }

  // ---- the whole payload --------------------------------------------------------------------------

  method ReadBlob(r: Reader) returns (ok: bool, blob: Str)
    requires r.Valid()
    modifies r`pos, r`overran
    ensures ok == Blob(old(r.Rest()), r.past).Some?
    ensures ok ==> blob == Blob(old(r.Rest()), r.past).value
  {
    hide ParseString;
    ok, blob := r.ReadString();
    if ok {
      var left := r.Remaining();
      ok := left == 0;
    }
  }

  method PairEntries(es: seq<Str>) returns (pairs: seq<(Str, Str)>)
    requires |es| % 2 == 0
    ensures pairs == PairUp(es)
  {
    pairs := [];
    var i := 0;
    while i < |es|
      invariant 0 <= i <= |es| && i % 2 == 0 && pairs + PairUp(es[i..]) == PairUp(es)
    {
      assert es[i..][2..] == es[i + 2..];
      pairs := pairs + [(es[i], es[i + 1])];
      i := i + 2;
    }
  }

  method ScoreEntries(es: seq<Str>, toDouble: ToDouble) returns (ok: bool, items: seq<(Score, Str)>)
    requires |es| % 2 == 0
    ensures ok == ScoreUp(es, toDouble).Some?
    ensures ok ==> items == ScoreUp(es, toDouble).value
  {
    items := [];
    var i := 0;
    ghost var whole := ScoreUp(es, toDouble);
    while i < |es|
      invariant 0 <= i <= |es| && i % 2 == 0
      invariant var more := ScoreUp(es[i..], toDouble);
        if more.None? then whole.None? else whole.Some? && whole.value == items + more.value
    {
      assert es[i..][2..] == es[i + 2..];
      var score := toDouble(es[i + 1]);
      if score.None? {
        return false, [];
      }
      items := items + [(score.value, es[i])];
      i := i + 2;
    }
    ok := true;
  }

  method ReadBlobContent(kind: int, blob: Str, toDouble: ToDouble) returns (content: Option<Content>)
    requires IsBlobKind(kind)
    ensures content ==
      var es := BlobEntries(kind, blob); if es.None? then None else BlobContent(kind, es.value, toDouble)
  {
    hide ScoreUp, PairUp;
    var ok, es;
    if kind == 10 || kind == 12 || kind == 13 {
      ok, es := Ziplist.ReadZipListAll(blob);
    } else if kind == 11 {
      ok, es := Intset.ParseIntSetBlob(blob);
    } else {
      ok, es := Listpack.ReadListPackAll(blob);
    }
    if !ok {
      return None;
    }
    if kind == 10 {
      return Some(ListContent(es));
    } else if kind == 11 || kind == 20 {
      return Some(SetContent(es));
    } else if |es| % 2 != 0 {
      return None;
    } else if kind == 13 || kind == 16 {
      var pairs := PairEntries(es);
      return Some(HashContent(pairs));
    } else {
      var scored, items := ScoreEntries(es, toDouble);
      return if scored then Some(ZsetContent(items)) else None;
    }
  }

  method DecodeContent(payload: Str, toDouble: ToDouble, past: byte) returns (content: Option<Content>)
    ensures content == Decode(payload, toDouble, past)
  {
    hide Counted, Blob, BlobEntries, BlobContent, ItemParser, NodeParser, StringParser, PairParser, Concat;
    var r := new Reader(payload, past);
    var ok, kind := r.ReadByte();
    if !ok {
      return None;
    }
    if kind == 0 {
      var s;
      ok, s := ReadBlob(r);
      return if ok then Some(StringContent(s)) else None;
    } else if kind == 1 || kind == 2 {
      var l;
      ok, l := ReadStrings(r);
      return if !ok then None else if kind == 1 then Some(ListContent(l)) else Some(SetContent(l));
    } else if kind == 3 {
      var z;
      ok, z := ReadItems(r, false, toDouble);
      return if ok then Some(ZsetContent(z)) else None;
    } else if kind == 4 {
      var h;
      ok, h := ReadPairs(r);
      return if ok then Some(HashContent(h)) else None;
    } else if kind == 5 {
      var z;
      ok, z := ReadItems(r, true, toDouble);
      return if ok then Some(ZsetContent(z)) else None;
    } else if kind == 14 {
      var l;
      ok, l := ReadNodes(r, false);
      return if ok then Some(ListContent(l)) else None;
    } else if kind == 18 {
      var l;
      ok, l := ReadNodes(r, true);
      return if ok then Some(ListContent(l)) else None;
    } else if IsBlobKind(kind) {
      var blob;
      ok, blob := ReadBlob(r);
      if !ok {
        return None;
      }
      content := ReadBlobContent(kind, blob, toDouble);
    } else {
      return None;
    }
  }
}
