/** RedisHashObject (src/redis_hash_object.cpp): the field map, its cached encoded length, and HINCRBY. */
module HashObject {
  import opened Bytes
  import opened Objects
  import opened Decimal
  import opened ObjectCodec

  type Fields = map<Str, Str>

  function PairLength(k: Str, v: Str): nat { 8 + |k| + |v| }

  /** Bytes the pairs of a map occupy in the encoding. */
  ghost function PairsLength(m: Fields): nat {
    if m == map[] then 0
    else
      var k :| k in m;
      PairLength(k, m[k]) + PairsLength(m - {k})
  }

  ghost function EncodedLength(m: Fields): nat { 5 + PairsLength(m) }

  /** The sum does not depend on the order in which the fields are taken. */
  lemma {:induction false} PairsLengthTake(m: Fields, k: Str)
    requires k in m
    ensures PairsLength(m) == PairLength(k, m[k]) + PairsLength(m - {k})
    decreases |m|
  {
    var j :| j in m && PairsLength(m) == PairLength(j, m[j]) + PairsLength(m - {j});
    if j != k {
      assert (m - {j}) - {k} == (m - {k}) - {j};
      PairsLengthTake(m - {j}, k);
      PairsLengthTake(m - {k}, j);
    }
  }

  lemma PairsLengthPut(m: Fields, k: Str, v: Str)
    ensures PairsLength(m[k := v]) == PairsLength(m - {k}) + PairLength(k, v)
    ensures k !in m ==> PairsLength(m[k := v]) == PairsLength(m) + PairLength(k, v)
    ensures k in m ==> PairsLength(m[k := v]) == PairsLength(m) + |v| - |m[k]|
  {
    var m' := m[k := v];
    assert m' - {k} == m - {k};
    PairsLengthTake(m', k);
    if k in m {
      PairsLengthTake(m, k);
    } else {
      assert m - {k} == m;
    }
  }

  // ---- the encoding -----------------------------------------------------------------------------

  function Pair(k: Str, v: Str): Str { Sized(k) + Sized(v) }

  /** The pairs along an enumeration of the fields. */
  function Pairs(order: seq<Str>, m: Fields): seq<Str>
    requires forall x :: x in order ==> x in m
  {
    seq(|order|, i requires 0 <= i < |order| => Pair(order[i], m[order[i]]))
  }

  function HashBytes(ttl: Ttl, order: seq<Str>, m: Fields): Str
    requires forall x :: x in order ==> x in m
  {
    ChunksBytes(HASH, ttl, Pairs(order, m))
  }

  /** The cached length counts what the encoding holds, whatever the enumeration. */
  lemma {:induction false} JoinedLength(order: seq<Str>, m: Fields)
    requires IsOrder(order, m.Keys)
    ensures |Join(Pairs(order, m))| == PairsLength(m)
  {
    if order == [] {
      assert m.Keys == {};
      assert m == map[];
    } else {
      var k, rest := order[0], m - {order[0]};
      assert k in SetOf(order);
      assert order[0] !in order[1..];
      assert SetOf(order[1..]) == SetOf(order) - {k};
      PairsLengthTake(m, k);
      JoinedLength(order[1..], rest);
      assert Pairs(order, m)[1..] == Pairs(order[1..], rest);
    }
  }

  ghost predicate FieldsFit32(m: Fields) {
    |m| < 0x1_0000_0000 && forall k :: k in m ==> |k| < 0x1_0000_0000 && |m[k]| < 0x1_0000_0000
  }

  method ReadPair(buf: Str, offset0: nat, ghost k: Str, ghost v: Str) returns (key: Str, value: Str, offset: nat)
    requires |k| < 0x1_0000_0000 && |v| < 0x1_0000_0000 && Holds(buf, offset0, Pair(k, v))
    ensures key == k && value == v && offset == offset0 + |Pair(k, v)| <= |buf|
  {
    HoldsParts(buf, offset0, Sized(k), Sized(v));
    key, offset := ReadSized(buf, offset0, k);
    value, offset := ReadSized(buf, offset, v);
  }

  datatype Code = Ok | NotAnInteger | Overflow | TooBig

  class RedisHashObject {
    var fields: Fields
    var serializedLength: int

    ghost predicate Valid()
      reads this
    {
      serializedLength == EncodedLength(fields)
    }

    constructor ()
      ensures Valid() && fields == map[]
    {
      fields := map[];
      serializedLength := 5;
    }

    /** The cached length changes by what the field adds to the encoding, whatever it was before. */
    method SetField(field: Str, value: Str)
      modifies this
      ensures fields == old(fields)[field := value]
      ensures serializedLength - EncodedLength(fields) == old(serializedLength - EncodedLength(fields))
      ensures old(Valid()) ==> Valid()
    {
      PairsLengthPut(fields, field, value);
      if field !in fields {
        serializedLength := serializedLength + 8 + |field| + |value|;
      } else {
        serializedLength := serializedLength + |value| - |fields[field]|;
      }
      fields := fields[field := value];
    }

    method CommitHset(elements: seq<(Str, Str)>)
      requires Valid()
      modifies this
      ensures Valid() && fields == PutAll(old(fields), elements)
    {
      for i := 0 to |elements|
        invariant Valid() && PutAll(fields, elements[i..]) == PutAll(old(fields), elements)
      {
        assert elements[i..][1..] == elements[i + 1..];
        SetField(elements[i].0, elements[i].1);
      }
    }

    // ---- the codec ----------------------------------------------------------------------------

    /** Serialize writes the pairs in iteration order. */
    method Serialize(order: seq<Str>, ttl: Ttl) returns (out: Str)
      requires Valid() && IsOrder(order, fields.Keys)
      ensures out == HashBytes(ttl, order, fields)
      ensures |out| == serializedLength + ttl.Size()
    {
      JoinedLength(order, fields);
      DistinctSize(order);
      ghost var chunks := Pairs(order, fields);
      var head := Header(HASH, ttl) + LE(4, |fields|);
      out := head;
      for i := 0 to |order|
        invariant out == head + Join(chunks[..i])
      {
        hide Join, LE;
        var key, value := order[i], fields[order[i]];
        JoinSnoc(chunks, i);
        Assoc(head, Join(chunks[..i]), chunks[i]);
        out := out + (LE(4, |key|) + key + (LE(4, |value|) + value));
      }
      assert chunks[..|order|] == chunks;
      Assoc(Header(HASH, ttl), LE(4, |order|), Join(chunks));
    }

    method Deserialize(buf: Str, offset0: nat, timed: bool, ghost ttl0: Ttl, ghost order: seq<Str>, ghost f: Fields)
      returns (ttl: Ttl, offset: nat)
      requires IsOrder(order, f.Keys) && FieldsFit32(f)
      requires ttl0.Valid() && timed == ttl0.Until? && Holds(buf, offset0, HashBytes(ttl0, order, f))
      modifies this
      ensures Valid() && fields == f && ttl == ttl0
      ensures offset == offset0 + |HashBytes(ttl0, order, f)|
    {
      hide Join, Pair;
      fields := map[];
      serializedLength := 0;
      DistinctSize(order);
      JoinedLength(order, f);
      ghost var chunks := Pairs(order, f);
      var cnt;
      ttl, cnt, offset := ReadPreamble(buf, offset0, timed, HASH, ttl0, |chunks|, Join(chunks));
      offset := ReadFields(buf, offset, cnt, order, f);
      serializedLength := offset - offset0 - if timed then 8 else 0;
    }

    method ReadFields(buf: Str, offset0: nat, cnt: nat, ghost order: seq<Str>, ghost f: Fields) returns (offset: nat)
      requires IsOrder(order, f.Keys) && FieldsFit32(f) && cnt == |order| && fields == map[]
      requires Holds(buf, offset0, Join(Pairs(order, f)))
      modifies this
      ensures fields == f && offset == offset0 + |Join(Pairs(order, f))|
    {
      hide Join, Pair, Restrict, Holds;
      ghost var chunks := Pairs(order, f);
      assert chunks[0..] == chunks;
      NothingJoined(chunks);
      RestrictEnds(f, order);
      offset := offset0;
      for i := 0 to cnt
        invariant fields == Restrict(f, order[..i])
        invariant offset == offset0 + |Join(chunks[..i])|
        invariant Holds(buf, offset, Join(chunks[i..]))
      {
        FirstChunk(buf, offset, chunks, i);
        JoinSnoc(chunks, i);
        RestrictSnoc(f, order, i);
        assert order[i] in SetOf(order);
        var key, value;
        key, value, offset := ReadPair(buf, offset, order[i], f[order[i]]);
        SetField(key, value);
      }
      assert order[..cnt] == order && chunks[..cnt] == chunks;
    }

    method CommitHdel(keys: seq<Str>) returns (empty: bool)
      requires Valid()
      modifies this
      ensures Valid() && fields == old(fields) - (set k | k in keys) && empty == (fields == map[])
    {
      for i := 0 to |keys|
        invariant Valid() && fields == old(fields) - (set k | k in keys[..i])
      {
        assert keys[..i + 1] == keys[..i] + [keys[i]];
        if keys[i] in fields {
          PairsLengthTake(fields, keys[i]);
          serializedLength := serializedLength - PairLength(keys[i], fields[keys[i]]);
          fields := fields - {keys[i]};
        }
      }
      assert keys[..|keys|] == keys;
      empty := |fields| == 0;
    }

    /** Execute for HINCRBY: reserves 20 bytes for the new text, whatever its length will be. */
    method ExecuteHIncrBy(field: Str, incr: int) returns (accepted: bool, code: Code, result: int)
      requires Valid() && IsInt64(incr)
      ensures accepted == (code == Ok) && code == Decide(fields, field, incr)
      ensures accepted ==> IsInt64(result) && forall v :: Counts(fields, field, v) ==> result == v + incr
    {
      var oldVal, len := 0, 0;
      if field in fields {
        var ok;
        ok, oldVal := String2ll(fields[field]);
        ParsesIff(fields[field], ok, oldVal);
        if !ok {
          return false, NotAnInteger, 0;
        }
        len := len - |fields[field]|;
      } else {
        len := len + 8 + |field|;
      }
      if (incr < 0 && oldVal <= 0 && incr <= LLONG_MIN - oldVal) ||
         (incr > 0 && oldVal >= 0 && incr >= LLONG_MAX - oldVal) {
        return false, Overflow, 0;
      }
      result := oldVal + incr;
      len := len + 20;
      if serializedLength + len > MAX_OBJECT_SIZE {
        return false, TooBig, 0;
      }
      CountsIff(fields, field, oldVal);
      return true, Ok, result;
    }

    method CommitHincrby(field: Str, incr: int)
      requires Valid() && (field in fields ==> IsNumber(fields[field]))
      modifies this
      ensures Valid()
      ensures forall v :: Counts(old(fields), field, v) ==> fields == old(fields)[field := ToString(v + incr)]
    {
      var oldScore := 0;
      if field in fields {
        var ok;
        ok, oldScore := String2ll(fields[field]);
        ParsesIff(fields[field], ok, oldScore);
      }
      CountsIff(fields, field, oldScore);
      var text := ToString(oldScore + incr);
      PairsLengthPut(fields, field, text);
      if field in fields {
        serializedLength := serializedLength - |fields[field]|;
      } else {
        serializedLength := serializedLength + 8 + |field|;
      }
      serializedLength := serializedLength + |text|;
      fields := fields[field := text];
    }
  }

  function PutAll(m: Fields, elements: seq<(Str, Str)>): Fields
    decreases |elements|
  {
    if elements == [] then m else PutAll(m[elements[0].0 := elements[0].1], elements[1..])
  }

  /** A field that no pair names keeps its value, or stays away. */
  lemma {:induction false} UnnamedStays(m: Fields, elements: seq<(Str, Str)>, field: Str)
    requires forall i :: 0 <= i < |elements| ==> elements[i].0 != field
    ensures field in PutAll(m, elements) <==> field in m
    ensures field in m ==> PutAll(m, elements)[field] == m[field]
    decreases |elements|
  {
    if elements != [] {
      UnnamedStays(m[elements[0].0 := elements[0].1], elements[1..], field);
    }
  }

  /** A field that is named gets the value of the last pair that names it. */
  lemma {:induction false} LastPairWins(m: Fields, elements: seq<(Str, Str)>, j: nat)
    requires j < |elements| && forall i :: j < i < |elements| ==> elements[i].0 != elements[j].0
    ensures elements[j].0 in PutAll(m, elements) && PutAll(m, elements)[elements[j].0] == elements[j].1
    decreases |elements|
  {
    var m' := m[elements[0].0 := elements[0].1];
    if j == 0 {
      UnnamedStays(m', elements[1..], elements[0].0);
    } else {
      LastPairWins(m', elements[1..], j - 1);
    }
  }

  // ---- HINCRBY ------------------------------------------------------------------------------------

  /** The text is the decimal of a 64-bit integer. */
  ghost predicate IsNumber(s: Str) { exists v :: IsInt64(v) && s == ToString(v) }

  ghost function NumberOf(s: Str): (v: int)
    requires IsNumber(s)
    ensures IsInt64(v) && s == ToString(v)
  {
    var v :| IsInt64(v) && s == ToString(v);
    v
  }

  lemma ParsesIff(s: Str, ok: bool, value: int)
    requires ok ==> IsInt64(value) && s == ToString(value)
    requires !ok ==> forall v :: IsInt64(v) ==> s != ToString(v)
    ensures ok == IsNumber(s)
    ensures ok ==> NumberOf(s) == value
  {
    if ok {
      ToStringInjective(NumberOf(s), value);
    }
  }

  /** The integer a field holds; a missing field counts as 0. */
  ghost function Current(m: Fields, field: Str): int {
    if field in m && IsNumber(m[field]) then NumberOf(m[field]) else 0
  }

  /** The number HINCRBY counts from: what the field holds, or 0 if there is no such field. */
  ghost predicate Counts(m: Fields, field: Str, v: int) {
    if field in m then IsInt64(v) && m[field] == ToString(v) else v == 0
  }

  lemma CountsIff(m: Fields, field: Str, v: int)
    requires field in m ==> IsNumber(m[field])
    requires v == Current(m, field)
    ensures forall u :: Counts(m, field, u) <==> u == v
  {
    forall u ensures Counts(m, field, u) <==> u == v {
      if field in m && Counts(m, field, u) {
        ToStringInjective(u, v);
      }
    }
  }

  /** The range test of HINCRBY, as written: it also turns away sums that land exactly on a bound. */
  predicate RangeReject(old_: int, incr: int) {
    (incr < 0 && old_ <= 0 && incr <= LLONG_MIN - old_) || (incr > 0 && old_ >= 0 && incr >= LLONG_MAX - old_)
  }

  /** Room for the new text: 20 bytes are set aside. */
  ghost function Reserved(m: Fields, field: Str): int {
    EncodedLength(m) + 20 + if field in m then -|m[field]| else 8 + |field|
  }

  ghost function Decide(m: Fields, field: Str, incr: int): Code {
    if field in m && !IsNumber(m[field]) then NotAnInteger
    else if RangeReject(Current(m, field), incr) then Overflow
    else if Reserved(m, field) > MAX_OBJECT_SIZE then TooBig
    else Ok
  }

  /** The range test rejects exactly the overflowing sums and those that reach a bound from the same side. */
  lemma RangeRejectIff(old_: int, incr: int)
    requires IsInt64(old_) && IsInt64(incr)
    ensures RangeReject(old_, incr) <==>
            || !IsInt64(old_ + incr)
            || (old_ + incr == LLONG_MIN && incr < 0 && old_ <= 0)
            || (old_ + incr == LLONG_MAX && incr > 0 && old_ >= 0)
  {
  }

  /** HINCRBY by 2^63-1 on a missing field is rejected although the sum fits. */
  lemma RangeRejectWitness()
    ensures RangeReject(0, LLONG_MAX) && IsInt64(0 + LLONG_MAX)
  {
  }

  /** NotAnInteger: the field exists and does not hold the decimal of a 64-bit integer. */
  lemma NotAnIntegerIff(m: Fields, field: Str, incr: int)
    ensures Decide(m, field, incr) == NotAnInteger <==>
            field in m && forall v :: IsInt64(v) ==> m[field] != ToString(v)
  {
  }

  /** The other codes, from the number v that HINCRBY counts from: Overflow for a sum outside 64 bits or one that
      reaches a bound from the same side, TooBig when the 20 bytes do not fit, and Ok otherwise. */
  lemma CodeIff(m: Fields, field: Str, incr: int, v: int)
    requires IsInt64(incr) && Counts(m, field, v)
    ensures var outside := !IsInt64(v + incr) || (v + incr == LLONG_MIN && incr < 0 && v <= 0)
                             || (v + incr == LLONG_MAX && incr > 0 && v >= 0);
      var length := EncodedLength(m) + 20 + if field in m then -|m[field]| else 8 + |field|;
      Decide(m, field, incr) == if outside then Overflow else if length > MAX_OBJECT_SIZE then TooBig else Ok
    ensures Decide(m, field, incr) == Ok ==> Step(m, field, incr) == m[field := ToString(v + incr)]
  {
    assert field in m ==> IsNumber(m[field]);
    CountsIff(m, field, Current(m, field));
    RangeRejectIff(v, incr);
  }

  /** A missing field counts as 0: any increment strictly between the bounds is accepted if 28 bytes and the name
      fit, and becomes the value. */
  lemma MissingFieldAccepted(m: Fields, field: Str, incr: int)
    requires field !in m && LLONG_MIN < incr < LLONG_MAX && EncodedLength(m) + 28 + |field| <= MAX_OBJECT_SIZE
    ensures Decide(m, field, incr) == Ok && Step(m, field, incr) == m[field := ToString(incr)]
  {
    CodeIff(m, field, incr, 0);
  }

  ghost function Step(m: Fields, field: Str, incr: int): Fields {
    if IsInt64(incr) && Decide(m, field, incr) == Ok then m[field := ToString(Current(m, field) + incr)] else m
  }

  /** One accepted HINCRBY: the text fits the reserved 20 bytes, re-parses to the sum, and the size limit holds. */
  lemma StepIsSafe(m: Fields, field: Str, incr: int)
    requires IsInt64(incr) && Decide(m, field, incr) == Ok
    ensures var m' := Step(m, field, incr);
            && |m'[field]| <= 20
            && IsNumber(m'[field]) && Current(m', field) == Current(m, field) + incr
            && EncodedLength(m') <= Reserved(m, field) <= MAX_OBJECT_SIZE
  {
    var v := Current(m, field) + incr;
    RangeRejectIff(Current(m, field), incr);
    Int64TextLength(v);
    PairsLengthPut(m, field, ToString(v));
    var m' := Step(m, field, incr);
    assert IsNumber(m'[field]);
    ToStringInjective(NumberOf(m'[field]), v);
  }

  datatype Incr = Incr(field: Str, by_: int)

  ghost function Run(m: Fields, cmds: seq<Incr>): Fields
    decreases |cmds|
  {
    if cmds == [] then m else Run(Step(m, cmds[0].field, cmds[0].by_), cmds[1..])
  }

  /** The accepted increments of one field along a run, added up. */
  ghost function Accepted(m: Fields, cmds: seq<Incr>, field: Str): int
    decreases |cmds|
  {
    if cmds == [] then 0
    else
      var c := cmds[0];
      (if c.field == field && IsInt64(c.by_) && Decide(m, c.field, c.by_) == Ok then c.by_ else 0)
      + Accepted(Step(m, c.field, c.by_), cmds[1..], field)
  }

  /** Along every run of HINCRBYs: the object stays within the limit, a field that holds a number always holds
      one, and its value is the old value plus the increments that were accepted. */
  lemma {:induction false} RunConserves(m: Fields, cmds: seq<Incr>, field: Str)
    requires EncodedLength(m) <= MAX_OBJECT_SIZE
    ensures EncodedLength(Run(m, cmds)) <= MAX_OBJECT_SIZE
    ensures field !in m || IsNumber(m[field]) ==> field !in Run(m, cmds) || IsNumber(Run(m, cmds)[field])
    ensures field !in m || IsNumber(m[field]) ==>
              Current(Run(m, cmds), field) == Current(m, field) + Accepted(m, cmds, field)
    decreases |cmds|
  {
    if cmds != [] {
      var c := cmds[0];
      if IsInt64(c.by_) && Decide(m, c.field, c.by_) == Ok {
        StepIsSafe(m, c.field, c.by_);
      }
      RunConserves(Step(m, c.field, c.by_), cmds[1..], field);
    }
  }

  /** A field written by an accepted HINCRBY never makes a later one fail with "not an integer". */
  lemma WrittenFieldReparses(m: Fields, field: Str, incr: int, cmds: seq<Incr>, again: int)
    requires EncodedLength(m) <= MAX_OBJECT_SIZE && IsInt64(incr) && Decide(m, field, incr) == Ok
    ensures Decide(Run(Step(m, field, incr), cmds), field, again) != NotAnInteger
  {
    StepIsSafe(m, field, incr);
    RunConserves(Step(m, field, incr), cmds, field);
  }
}
