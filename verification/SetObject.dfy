/** RedisHashSetObject (src/redis_set_object.cpp): the member set, its cached encoded length, and sampling.

    The iteration order of the hash set is unspecified: it is an input, any enumeration of the members. */
module SetObject {
  import opened Bytes
  import opened Objects
  import opened RandMap
  import opened ObjectCodec

  function Verdict(before: set<Str>, after: set<Str>): State {
    Outcome(after != before, after == {})
  }

  // ---- encoded length -----------------------------------------------------------------------------

  ghost function EncodedLength(s: set<Str>): nat { 5 + MembersLength(s) }

  // ---- sizes --------------------------------------------------------------------------------------

  /** Members drawn from a set empty it exactly when all of them were drawn. */
  lemma DrawnEmptiesIff(l: seq<Str>, s: set<Str>)
    requires Distinct(l) && SetOf(l) <= s
    ensures |l| <= |s|
    ensures s - SetOf(l) == {} <==> |l| >= |s|
    ensures s - SetOf(l) == s <==> l == []
  {
    DistinctSize(l);
    SubsetSize(SetOf(l), s);
    if l != [] {
      assert l[0] in SetOf(l);
    }
    Covering(s, SetOf(l));
    assert s * SetOf(l) == SetOf(l);
  }

  lemma SubsetSize(a: set<Str>, b: set<Str>)
    requires a <= b
    ensures |a| <= |b| && (|a| == |b| ==> a == b)
  {
    var rest := b - a;
    assert b == a + rest;
  }

  class RedisHashSetObject {
    var members: set<Str>
    var serializedLength: int

    ghost predicate Valid()
      reads this
    {
      serializedLength == EncodedLength(members)
    }

    constructor ()
      ensures Valid() && members == {}
    {
      members := {};
      serializedLength := 5;
    }

    method CommitSAdd(paras: seq<Str>) returns (empty: bool)
      requires Valid()
      modifies this
      ensures Valid() && members == old(members) + SetOf(paras) && empty == (members == {})
    {
      for i := 0 to |paras|
        invariant Valid() && members == old(members) + SetOf(paras[..i])
      {
        assert paras[..i + 1] == paras[..i] + [paras[i]];
        if paras[i] !in members {
          MembersLengthTake(members + {paras[i]}, paras[i]);
          assert members + {paras[i]} - {paras[i]} == members;
          members := members + {paras[i]};
          serializedLength := serializedLength + 4 + |paras[i]|;
        }
      }
      assert paras[..|paras|] == paras;
      empty := |members| == 0;
    }

    /** CommitSRem and CommitSPop have the same body. */
    method CommitRemove(paras: seq<Str>) returns (empty: bool)
      requires Valid()
      modifies this
      ensures Valid() && members == old(members) - SetOf(paras) && empty == (members == {})
    {
      for i := 0 to |paras|
        invariant Valid() && members == old(members) - SetOf(paras[..i])
      {
        assert paras[..i + 1] == paras[..i] + [paras[i]];
        if paras[i] in members {
          MembersLengthTake(members, paras[i]);
          members := members - {paras[i]};
          serializedLength := serializedLength - (4 + |paras[i]|);
        }
      }
      assert paras[..|paras|] == paras;
      empty := |members| == 0;
    }

    // ---- the codec ----------------------------------------------------------------------------

    /** Serialize writes the members in iteration order. */
    method Serialize(order: seq<Str>, ttl: Ttl) returns (out: Str)
      requires Valid() && IsOrder(order, members)
      ensures out == StringsBytes(SET, ttl, order)
      ensures |out| == serializedLength + ttl.Size()
    {
      DistinctSize(order);
      out := Header(SET, ttl);
      out := out + LE(4, |members|);
      out := AppendStrings(out, order);
      Assoc(Header(SET, ttl), LE(4, |order|), AllSized(order));
      StringsBytesLength(SET, ttl, order);
      OrderLength(order);
    }

    method Deserialize(buf: Str, offset0: nat, timed: bool, ghost ttl0: Ttl, ghost order: seq<Str>)
      returns (ttl: Ttl, offset: nat)
      requires Fits32(order) && Distinct(order) && ttl0.Valid() && timed == ttl0.Until?
      requires Holds(buf, offset0, StringsBytes(SET, ttl0, order))
      modifies this
      ensures Valid() && members == SetOf(order) && ttl == ttl0
      ensures offset == offset0 + |StringsBytes(SET, ttl0, order)|
    {
      hide AllSized, Sized, Distinct;
      members := {};
      serializedLength := 0;
      StringsBytesLength(SET, ttl0, order);
      OrderLength(order);
      var cnt;
      ttl, cnt, offset := ReadPreamble(buf, offset0, timed, SET, ttl0, |order|, AllSized(order));
      ghost var start := offset;
      for i := 0 to cnt
        invariant members == SetOf(order[..i])
        invariant offset == start + SizedLength(order[..i]) <= |buf|
        invariant Holds(buf, offset, AllSized(order[i..]))
      {
        FirstItem(buf, offset, order, i);
        SizedSnoc(order, i);
        SetOfSnoc(order, i);
        var s;
        s, offset := ReadSized(buf, offset, order[i]);
        members := members + {s};
      }
      assert order[..cnt] == order;
      serializedLength := offset - offset0 - if timed then 8 else 0;
    }

    /** Execute for SREM counts arguments, not members. */
    method ExecuteSRem(paras: seq<Str>) returns (state: State, ret: nat)
      ensures ret == Found(members, paras)
      ensures state == if ret == 0 then NoChange else if ret >= |members| then ModifiedToEmpty else Modified
    {
      ret := 0;
      for i := 0 to |paras|
        invariant ret + Found(members, paras[i..]) == Found(members, paras)
      {
        assert paras[i..][1..] == paras[i + 1..];
        if paras[i] in members {
          ret := ret + 1;
        }
      }
      state := if ret == 0 then NoChange else if ret >= |members| then ModifiedToEmpty else Modified;
    }

    /** The sampling walk shared by SRANDMEMBER and SPOP: visit the drawn indices in increasing order and write
        each member into the result slot its pair names. */
    method Collect(order: seq<Str>, m: Pairs) returns (out: array<Str>)
      requires Drawn(m, |order|, |m|)
      ensures fresh(out) && out.Length == |m|
      ensures forall j :: 0 <= j < |m| ==> out[m[j].1] == order[m[j].0]
    {
      out := new Str[|m|](i => []);
      var cnt := 0;
      for j := 0 to |m|
        invariant 0 <= cnt && (j < |m| ==> cnt <= m[j].0) && cnt <= |order|
        invariant forall i :: 0 <= i < j ==> out[m[i].1] == order[m[i].0]
      {
        while cnt < m[j].0
          invariant cnt <= m[j].0
        {
          cnt := cnt + 1;
        }
        out[m[j].1] := order[cnt];
      }
    }

    /** The shortcut for a set much larger than the sample: the first `count` members in iteration order.  Its
        caller only takes it when the set has more than a hundred times `count` members, so the wrap-around at
        the end of the set is never followed by another write. */
    method TakeFirst(order: seq<Str>, count: nat) returns (out: seq<Str>)
      requires count < |order|
      ensures out == order[..count]
    {
      var filled := new Str[count](i => []);
      var cnt, hiter := 0, 0;
      while cnt < count
        invariant 0 <= cnt <= count && hiter == cnt
        invariant filled[..cnt] == order[..cnt]
      {
        filled[cnt] := order[hiter];
        cnt := cnt + 1;
        hiter := hiter + 1;
        if hiter == |order| {
          hiter := 0;
        }
      }
      out := filled[..];
    }

    /** Execute for SRANDMEMBER.  A negative count asks for that many members, repeats allowed; a larger count than
        there are members gives all of them.  The random numbers decide which, except on the shortcut. */
    method ExecuteSRandMember(count0: int, buckets: nat, order: seq<Str>, rnd: nat -> nat)
      returns (out: seq<Str>, ghost keys: seq<int>)
      requires IsOrder(order, members) && 0 < |members| < 0x8000_0000
      ensures count0 < 0 ==> |out| == -count0
      ensures 0 <= count0 <= |members| ==> |out| == count0
      ensures count0 >= |members| ==> SetOf(out) == members
      ensures SetOf(out) <= members && (count0 >= 0 ==> Distinct(out))
      ensures Selected(out, order, buckets, count0 < 0, rnd, keys)
    {
      DistinctSize(order);
      var count := if count0 < 0 then -count0 else count0;
      var sz := |members|;
      if count0 >= 0 {
        count := if sz < count then sz else count;
      }
      out, keys := Select(count, count0 < 0, buckets, order, rnd);
      AllOrFewer(out, members);
    }

    /** Draw indices and walk to them. */
    method Draw(count: nat, repeat: bool, order: seq<Str>, rnd: nat -> nat)
      returns (out: seq<Str>, ghost keys: seq<int>)
      requires Distinct(order) && (count > 0 ==> order != []) && (!repeat ==> count <= |order|)
      ensures |out| == count && SetOf(out) <= SetOf(order) && (!repeat ==> Distinct(out))
      ensures DrawnMembers(out, order, repeat, rnd, keys)
    {
      hide DrawnKeys, Records, Distinct, SetOf, DistinctKeys, Drawn;
      var m;
      m, keys := GenRandMap(|order|, count, repeat, rnd);
      SlotsInRange(m, |order|);
      var filled := Collect(order, m);
      out := filled[..];
      SlotsCover(order, m, out);
      SlotsNamed(order, m, out, keys);
    }

    /** The common part of SRANDMEMBER and SPOP: the shortcut, or a draw. */
    method Select(count: nat, repeat: bool, buckets: nat, order: seq<Str>, rnd: nat -> nat)
      returns (out: seq<Str>, ghost keys: seq<int>)
      requires Distinct(order) && (count > 0 ==> order != []) && (!repeat ==> count <= |order|)
      ensures |out| == count && SetOf(out) <= SetOf(order) && (!repeat ==> Distinct(out))
      ensures Selected(out, order, buckets, repeat, rnd, keys)
    {
      hide Distinct, SetOf, DrawnMembers;
      var sz := |order|;
      if count > 0 {
        QuotientAbove(sz, count);
      }
      if sz > 0 && count > 0 && sz / count > 100 && buckets > count {
        out := TakeFirst(order, count);
        keys := [];
        FirstAreDistinct(order, count);
      } else {
        out, keys := Draw(count, repeat, order, rnd);
      }
    }

    /** Execute for SPOP; a missing count is stored as -1. */
    method ExecuteSPop(count0: int, buckets: nat, order: seq<Str>, rnd: nat -> nat)
      returns (state: State, nil: bool, out: seq<Str>, ghost keys: seq<int>)
      requires IsOrder(order, members) && |members| < 0x8000_0000 && count0 >= -1
      ensures count0 == -1 && members != {} ==> |out| == 1
      ensures 0 <= count0 <= |members| ==> |out| == count0
      ensures count0 >= |members| ==> SetOf(out) == members
      ensures SetOf(out) <= members && Distinct(out)
      ensures Selected(out, order, buckets, false, rnd, keys)
      ensures state == Verdict(members, members - SetOf(out))
      ensures nil <==> count0 == -1 && members == {}
    {
      DistinctSize(order);
      var count := if count0 == -1 then 1 else count0;
      var sz := |members|;
      count := if sz < count then sz else count;
      out, keys := Select(count, false, buckets, order, rnd);
      nil := count0 == -1 && |out| == 0;
      AllOrFewer(out, members);
      DrawnEmptiesIff(out, members);
      state := if out == [] then NoChange else if |out| >= |members| then ModifiedToEmpty else Modified;
    }

    /** SPOP as a whole: execute, then commit what was reported. */
    method SPop(count0: int, buckets: nat, order: seq<Str>, rnd: nat -> nat)
      returns (state: State, out: seq<Str>)
      requires Valid() && IsOrder(order, members) && |members| < 0x8000_0000 && count0 >= -1
      modifies this
      ensures Valid() && members == old(members) - SetOf(out) && SetOf(out) <= old(members) && Distinct(out)
      ensures count0 == -1 && old(members) != {} ==> |members| == |old(members)| - 1
      ensures 0 <= count0 <= |old(members)| ==> |members| == |old(members)| - count0
      ensures count0 >= |old(members)| ==> members == {}
      ensures old(members) != {} ==> (state == ModifiedToEmpty <==> members == {})
    {
      hide Selected, Distinct;
      var nil;
      ghost var keys;
      state, nil, out, keys := ExecuteSPop(count0, buckets, order, rnd);
      DistinctSize(out);
      ghost var before := members;
      var _ := CommitRemove(out);
      assert before == members + SetOf(out);
    }
  }

  /** The members at the drawn indices, in the order in which they were drawn. */
  ghost predicate DrawnMembers(out: seq<Str>, order: seq<Str>, repeat: bool, rnd: nat -> nat, keys: seq<int>) {
    && |keys| == |out| && (keys != [] ==> order != []) && DrawnKeys(keys, |order|, repeat, rnd)
    && forall i :: 0 <= i < |out| ==> 0 <= keys[i] < |order| && out[i] == order[keys[i]]
  }

  /** Which members come out: the first ones in iteration order when there are at least 101 times as many members and
      buckets enough, and otherwise those drawn. */
  ghost predicate Selected(out: seq<Str>, order: seq<Str>, buckets: nat, repeat: bool, rnd: nat -> nat,
                           keys: seq<int>) {
    if |out| > 0 && |order| >= 101 * |out| && buckets > |out| then out == order[..|out|]
    else DrawnMembers(out, order, repeat, rnd, keys)
  }

  lemma SlotsInRange(m: Pairs, size: nat)
    requires Drawn(m, size, |m|)
    ensures forall j :: 0 <= j < |m| ==> 0 <= m[j].0 < size && 0 <= m[j].1 < |m|
  {
  }

  /** Each result slot holds the member at the index drawn for it. */
  lemma SlotsNamed(order: seq<Str>, m: Pairs, out: seq<Str>, keys: seq<int>)
    requires Drawn(m, |order|, |m|) && Records(m, keys) && |out| == |m| == |keys|
    requires forall j :: 0 <= j < |m| ==> out[m[j].1] == order[m[j].0]
    ensures forall i :: 0 <= i < |out| ==> 0 <= keys[i] < |order| && out[i] == order[keys[i]]
  {
    hide Records;
    forall i | 0 <= i < |out| ensures 0 <= keys[i] < |order| && out[i] == order[keys[i]] {
      var j := RecordOf(m, keys, i);
    }
  }

  lemma AllOrFewer(out: seq<Str>, s: set<Str>)
    requires SetOf(out) <= s
    ensures Distinct(out) && |out| == |s| ==> SetOf(out) == s
  {
    SubsetSize(SetOf(out), s);
    if Distinct(out) {
      DistinctSize(out);
    }
  }

  lemma QuotientAbove(sz: nat, count: nat)
    requires count > 0
    ensures sz / count > 100 <==> sz >= 101 * count
    ensures sz / count > 100 ==> count < sz
  {
    assert sz == count * (sz / count) + sz % count;
  }

  lemma FirstAreDistinct(order: seq<Str>, n: nat)
    requires Distinct(order) && n <= |order|
    ensures Distinct(order[..n]) && SetOf(order[..n]) <= SetOf(order)
  {
  }

  /** Every slot holds the member its pair names; distinct indices give distinct members. */
  lemma SlotsCover(order: seq<Str>, m: Pairs, out: seq<Str>)
    requires Distinct(order) && Drawn(m, |order|, |m|) && |out| == |m|
    requires forall j :: 0 <= j < |m| ==> out[m[j].1] == order[m[j].0]
    ensures SetOf(out) <= SetOf(order)
    ensures DistinctKeys(m) ==> Distinct(out)
  {
    forall v | 0 <= v < |out| ensures out[v] in order {
      assert HasSlot(m, v);
    }
    if DistinctKeys(m) {
      forall v, w | 0 <= v < w < |out| ensures out[v] != out[w] {
        assert HasSlot(m, v) && HasSlot(m, w);
        var i :| 0 <= i < |m| && m[i].1 == v;
        var j :| 0 <= j < |m| && m[j].1 == w;
        assert m[i].0 != m[j].0 by {
          if i < j {
            assert m[i].0 < m[j].0;
          } else {
            assert m[j].0 < m[i].0;
          }
        }
      }
    }
  }

  /** How many of the arguments are members, repetitions included. */
  function Found(s: set<Str>, paras: seq<Str>): nat {
    if paras == [] then 0 else (if paras[0] in s then 1 else 0) + Found(s, paras[1..])
  }

  lemma {:induction false} FoundDistinct(s: set<Str>, paras: seq<Str>)
    requires Distinct(paras)
    ensures Found(s, paras) == |s * SetOf(paras)|
  {
    if paras != [] {
      var x, t, t' := paras[0], SetOf(paras), SetOf(paras[1..]);
      FoundDistinct(s, paras[1..]);
      assert x !in t' by { assert x !in paras[1..]; }
      SetOfCons(paras);
      Overlap(s, x, t, t');
    } else {
      assert s * SetOf(paras) == {};
    }
  }

  lemma SetOfCons(l: seq<Str>)
    requires l != []
    ensures SetOf(l) == {l[0]} + SetOf(l[1..])
  {
    assert l == [l[0]] + l[1..];
  }

  lemma Overlap(s: set<Str>, x: Str, t: set<Str>, t': set<Str>)
    requires t == {x} + t'
    ensures x !in s ==> s * t == s * t'
    ensures x in s ==> s * t == {x} + s * t' && s * t != {}
    ensures x in s ==> |s * t| <= |s * t'| + 1
    ensures x in s && x !in t' ==> |s * t| == |s * t'| + 1
  {
    if x in s {
      assert s * t == {x} + s * t';
      assert x in s * t;
    } else {
      assert s * t == s * t';
    }
  }

  function SRemVerdict(s: set<Str>, paras: seq<Str>): State {
    var ret := Found(s, paras);
    if ret == 0 then NoChange else if ret >= |s| then ModifiedToEmpty else Modified
  }

  lemma {:induction false} FoundZero(s: set<Str>, paras: seq<Str>)
    ensures Found(s, paras) == 0 <==> s * SetOf(paras) == {}
    ensures Found(s, paras) >= |s * SetOf(paras)|
  {
    if paras != [] {
      FoundZero(s, paras[1..]);
      SetOfCons(paras);
      Overlap(s, paras[0], SetOf(paras), SetOf(paras[1..]));
    } else {
      assert s * SetOf(paras) == {};
    }
  }

  /** SREM's verdict is right exactly when counting repetitions did not reach the size of the set without the
      arguments covering it. */
  lemma SRemVerdictIff(s: set<Str>, paras: seq<Str>)
    requires s != {}
    ensures SRemVerdict(s, paras) == Verdict(s, s - SetOf(paras)) <==> Found(s, paras) < |s| || s <= SetOf(paras)
  {
    FoundZero(s, paras);
    Covering(s, SetOf(paras));
  }

  lemma Covering(s: set<Str>, t: set<Str>)
    ensures s * t == {} <==> s - t == s
    ensures s <= t <==> s - t == {}
    ensures |s * t| <= |s| && (|s * t| >= |s| <==> s <= t)
  {
    SubsetSize(s * t, s);
    assert forall x :: x in s && x in t ==> x in s * t;
    if s * t == {} {
      assert s - t == s;
    }
    if s - t == s {
      assert forall x :: x in s ==> x in s - t;
      assert s * t == {};
    }
    if s - t == {} {
      assert forall x :: x in s && x !in t ==> x in s - t;
    }
    assert s * t == s <==> s <= t;
  }

  /** In particular it is right when no argument is repeated. */
  lemma SRemVerdictDistinct(s: set<Str>, paras: seq<Str>)
    requires s != {} && Distinct(paras)
    ensures SRemVerdict(s, paras) == Verdict(s, s - SetOf(paras))
  {
    FoundDistinct(s, paras);
    Covering(s, SetOf(paras));
    SRemVerdictIff(s, paras);
  }

  /** Naming one of two members twice is announced as emptying the set. */
  lemma SRemRepeatWitness()
    ensures SRemVerdict({[1], [2]}, [[1], [1]]) == ModifiedToEmpty
    ensures {[1], [2]} - SetOf([[1], [1]]) == {[2]}
  {
    var s, paras := {[1], [2]}, [[1], [1]];
    assert paras[1..] == [[1]] && [[1]][1..] == [];
    assert Found(s, paras) == 2;
  }
}
