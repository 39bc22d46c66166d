/** RedisZsetObject: the codec only (include/redis_zset_object.h:61-158 and 393-496).  A sorted set is kept twice, as
    an ordered set of nodes and as a map from member to score.  Scores are the 64-bit patterns of doubles. */
module ZsetObject {
  import opened Bytes
  import opened Objects
  import opened ObjectCodec

  type Score = x: nat | x < 0x1_0000_0000_0000_0000

  type Scores = map<Str, Score>

  /** Exponent all ones and a fraction that is not zero. */
  predicate IsNaN(s: Score) {
    s / 0x10_0000_0000_0000 % 0x800 == 0x7FF && s % 0x10_0000_0000_0000 != 0
  }

  /** Equal as doubles: the two zeros are. */
  predicate SameNumber(a: Score, b: Score) {
    !IsNaN(a) && !IsNaN(b) && (a == b || (a % 0x8000_0000_0000_0000 == 0 && b % 0x8000_0000_0000_0000 == 0))
  }

  ghost predicate AllNumbers(z: Scores) {
    forall k :: k in z ==> !IsNaN(z[k])
  }

  /** The ordered set takes two nodes for the same one when neither comes before the other (lines 307-318): same number
      and same member, or a NaN among the two, which comes neither before nor after anything. */
  predicate Equivalent(a: (Str, Score), b: (Str, Score)) {
    IsNaN(a.1) || IsNaN(b.1) || (SameNumber(a.1, b.1) && a.0 == b.0)
  }

  ghost function EncodedLength(z: Scores): nat { 5 + MembersLength(z.Keys) + 8 * |z| }

  function Scored(k: Str, score: Score): Str { Sized(k) + LE(8, score) }

  /** The members with their scores along an enumeration. */
  function ScoredItems(order: seq<Str>, z: Scores): seq<Str>
    requires forall x :: x in order ==> x in z
  {
    seq(|order|, i requires 0 <= i < |order| => Scored(order[i], z[order[i]]))
  }

  function ZsetBytes(ttl: Ttl, order: seq<Str>, z: Scores): Str
    requires forall x :: x in order ==> x in z
  {
    ChunksBytes(ZSET, ttl, ScoredItems(order, z))
  }

  lemma {:induction false} JoinedLength(order: seq<Str>, z: Scores)
    requires forall x :: x in order ==> x in z
    ensures |Join(ScoredItems(order, z))| == SizedLength(order) + 8 * |order|
  {
    if order != [] {
      JoinedLength(order[1..], z);
      assert ScoredItems(order, z)[1..] == ScoredItems(order[1..], z);
    }
  }

  method ReadScored(buf: Str, offset0: nat, ghost k: Str, ghost s: Score)
    returns (field: Str, score: Score, offset: nat)
    requires |k| < 0x1_0000_0000 && Holds(buf, offset0, Scored(k, s))
    ensures field == k && score == s && offset == offset0 + 12 + |k| <= |buf|
  {
    Pow256Values();
    HoldsParts(buf, offset0, Sized(k), LE(8, s));
    field, offset := ReadSized(buf, offset0, k);
    score, offset := ReadLE(buf, offset, 8, s);
  }

  lemma ScoredSize(k: Str, score: Score)
    ensures |Scored(k, score)| == 12 + |k|
  {
  }

  /** The nodes of the ordered set, seen from the map. */
  ghost function Nodes(z: Scores): set<(Str, Score)> {
    set k | k in z :: (k, z[k])
  }

  /** What is left of a sorted set that is read in this order: a NaN in front keeps everything else out, and any other
      NaN is dropped. */
  ghost function Kept(z: Scores, order: seq<Str>): Scores
    requires forall x :: x in order ==> x in z
  {
    if order == [] then map[]
    else if IsNaN(z[order[0]]) then map[order[0] := z[order[0]]]
    else map k | k in order && !IsNaN(z[k]) :: z[k]
  }

  /** The sorted sets that survive: those without NaN, and those of a single member. */
  ghost predicate Clean(z: Scores) { AllNumbers(z) || |z| == 1 }

  lemma KeptIff(z: Scores, order: seq<Str>)
    requires IsOrder(order, z.Keys)
    ensures Kept(z, order) == z <==> Clean(z)
    ensures Kept(z, order).Keys <= z.Keys
    ensures (Kept(z, order) == z) <==> Kept(z, order).Keys == z.Keys
  {
    DistinctSize(order);
    assert |z| == |z.Keys|;
    assert forall k :: k in SetOf(order) <==> k in z;
    if order == [] {
      assert z.Keys == {};
      assert z == map[];
    } else if IsNaN(z[order[0]]) {
      if |z| == 1 {
        assert order == [order[0]];
        assert z.Keys == {order[0]};
        assert Kept(z, order) == z;
      } else {
        assert order[1] in z && order[1] != order[0];
      }
    } else if AllNumbers(z) {
      assert Kept(z, order) == z;
    } else {
      var k :| k in z && IsNaN(z[k]);
      assert k in z && k !in Kept(z, order);
      assert |z| != 1 by {
        assert order[0] != k && {order[0], k} <= z.Keys;
        SubsetSize({order[0], k}, z.Keys);
      }
    }
  }

  lemma {:induction false} SubsetSize(a: set<Str>, b: set<Str>)
    requires a <= b
    ensures |a| <= |b|
  {
    if a != {} {
      var x :| x in a;
      SubsetSize(a - {x}, b - {x});
    }
  }

  lemma KeptSnoc(z: Scores, order: seq<Str>, i: nat)
    requires i < |order| && Distinct(order) && forall x :: x in order ==> x in z
    ensures var before, k := Kept(z, order[..i]), order[i];
      && k !in before
      && (i > 0 && IsNaN(z[order[0]]) ==> before == map[order[0] := z[order[0]]])
      && Kept(z, order[..i + 1]) ==
         if i > 0 && (IsNaN(z[order[0]]) || IsNaN(z[k])) then before else before[k := z[k]]
  {
    SetOfSnoc(order, i);
    assert order[..i + 1] == order[..i] + [order[i]];
  }

  const NAN_AND_ZERO: Scores := map[[1] := 0x7FF8_0000_0000_0000, [2] := 0]

  /** A pair of members, one of them scored NaN, does not survive in either order. */
  lemma NaNWitness(order: seq<Str>)
    requires IsOrder(order, NAN_AND_ZERO.Keys)
    ensures Kept(NAN_AND_ZERO, order) != NAN_AND_ZERO
  {
    var z := NAN_AND_ZERO;
    assert [1] in z && IsNaN(z[[1]]);
    SubsetSize({[1], [2]}, z.Keys);
    KeptIff(z, order);
  }

  class RedisZsetObject {
    var ordered: set<(Str, Score)>
    var scores: Scores
    var serializedLength: int

    ghost predicate LengthExact()
      reads this
    {
      serializedLength == EncodedLength(scores)
    }

    /** The two copies agree and the cached length is the length of the encoding. */
    ghost predicate Valid()
      reads this
    {
      ordered == Nodes(scores) && LengthExact()
    }

    constructor ()
      ensures Valid() && scores == map[]
    {
      ordered, scores, serializedLength := {}, map[], 5;
    }

    method Serialize(order: seq<Str>, ttl: Ttl) returns (out: Str)
      requires LengthExact() && IsOrder(order, scores.Keys)
      ensures out == ZsetBytes(ttl, order, scores)
      ensures |out| == serializedLength + ttl.Size()
    {
      DistinctSize(order);
      OrderLength(order);
      JoinedLength(order, scores);
      ghost var chunks := ScoredItems(order, scores);
      var head := Header(ZSET, ttl) + LE(4, |scores|);
      out := head;
      for i := 0 to |order|
        invariant out == head + Join(chunks[..i])
      {
        hide Join, LE;
        JoinSnoc(chunks, i);
        Assoc(head, Join(chunks[..i]), chunks[i]);
        out := out + (LE(4, |order[i]|) + order[i] + LE(8, scores[order[i]]));
      }
      assert chunks[..|order|] == chunks;
      Assoc(Header(ZSET, ttl), LE(4, |order|), Join(chunks));
    }

    /** The two copies agree afterwards in any case; the sorted set that was written comes back, with its cached length
        exact, if and only if it is clean. */
    method Deserialize(buf: Str, offset0: nat, timed: bool, ghost ttl0: Ttl, ghost order: seq<Str>, ghost z: Scores)
      returns (ttl: Ttl, offset: nat)
      requires IsOrder(order, z.Keys) && Fits32(order)
      requires ttl0.Valid() && timed == ttl0.Until? && Holds(buf, offset0, ZsetBytes(ttl0, order, z))
      modifies this
      ensures scores == Kept(z, order) && ordered == Nodes(scores)
      ensures scores == z <==> Clean(z)
      ensures Valid() <==> Clean(z)
      ensures ttl == ttl0 && offset == offset0 + |ZsetBytes(ttl0, order, z)|
    {
      hide Join, Scored, SizedLength, MembersLength, Kept, Clean, Nodes;
      ordered, scores, serializedLength := {}, map[], 5;
      NothingKept(z, order);
      DistinctSize(order);
      OrderLength(order);
      JoinedLength(order, z);
      ghost var chunks := ScoredItems(order, z);
      var cnt;
      ttl, cnt, offset := ReadPreamble(buf, offset0, timed, ZSET, ttl0, |chunks|, Join(chunks));
      offset := ReadMembers(buf, offset, cnt, order, z);
      KeptIff(z, order);
      KeptLength(z, order);
    }

    method ReadMembers(buf: Str, offset0: nat, cnt: nat, ghost order: seq<Str>, ghost z: Scores) returns (offset: nat)
      requires IsOrder(order, z.Keys) && Fits32(order) && cnt == |order|
      requires scores == Kept(z, order[..0]) && ordered == Nodes(scores)
      requires Holds(buf, offset0, Join(ScoredItems(order, z)))
      modifies this
      ensures scores == Kept(z, order) && ordered == Nodes(scores)
      ensures offset == offset0 + SizedLength(order) + 8 * |order|
      ensures serializedLength == old(serializedLength) + SizedLength(order) + 8 * |order|
    {
      hide Join, Scored, SizedLength, Kept, Nodes, Holds;
      ghost var chunks := ScoredItems(order, z);
      assert chunks[0..] == chunks;
      NothingKept(z, order);
      offset := offset0;
      for i := 0 to cnt
        invariant scores == Kept(z, order[..i]) && ordered == Nodes(scores)
        invariant offset == offset0 + SizedLength(order[..i]) + 8 * i
        invariant serializedLength == old(serializedLength) + SizedLength(order[..i]) + 8 * i
        invariant Holds(buf, offset, Join(chunks[i..]))
      {
        ScoredSize(order[i], z[order[i]]);
        FirstChunk(buf, offset, chunks, i);
        SizedSnoc(order, i);
        var field, score;
        field, score, offset := ReadScored(buf, offset, order[i], z[order[i]]);
        serializedLength := serializedLength + 8 + 4 + |field|;
        Insert(field, score, z, order, i);
      }
      assert order[..cnt] == order;
    }

    /** The tree keeps an equivalent node if it has one, and the map is then asked to take that node's member. */
    method Insert(field: Str, score: Score, ghost z: Scores, ghost order: seq<Str>, ghost i: nat)
      requires i < |order| && IsOrder(order, z.Keys) && field == order[i] && score == z[field]
      requires scores == Kept(z, order[..i]) && ordered == Nodes(scores)
      modifies this`ordered, this`scores
      ensures scores == Kept(z, order[..i + 1]) && ordered == Nodes(scores)
    {
      KeptSnoc(z, order, i);
      KeptNodes(z, order, i);
      var found := set n | n in ordered && Equivalent(n, (field, score));
      if i > 0 && (IsNaN(z[order[0]]) || IsNaN(score)) {
        assert (order[0], z[order[0]]) in found;
      } else {
        assert found == {};
      }
      NodesPut(scores, field, score);
      var member := field;
      if found != {} {
        var n :| n in found;
        member := n.0;
      } else {
        ordered := ordered + {(field, score)};
      }
      scores := if member in scores then scores else scores[member := score];
    }
  }

  lemma NothingKept(z: Scores, order: seq<Str>)
    requires forall x :: x in order ==> x in z
    ensures Kept(z, order[..0]) == map[] && Nodes(map[]) == {} && SizedLength(order[..0]) == 0
  {
  }

  /** The cached length counts every member read, so it is exact only if none was dropped. */
  lemma KeptLength(z: Scores, order: seq<Str>)
    requires IsOrder(order, z.Keys)
    ensures EncodedLength(Kept(z, order)) == EncodedLength(z) <==> Kept(z, order) == z
  {
    KeptIff(z, order);
    hide Kept, MembersLength;
    var kept := Kept(z, order);
    MembersLengthSubset(kept.Keys, z.Keys);
    SubsetSize(kept.Keys, z.Keys);
    assert |kept| == |kept.Keys| && |z| == |z.Keys|;
  }

  lemma NodesPut(z: Scores, k: Str, score: Score)
    requires k !in z
    ensures Nodes(z[k := score]) == Nodes(z) + {(k, score)}
  {
    var z' := z[k := score];
    forall n | n in Nodes(z) + {(k, score)} ensures n in Nodes(z') {
      assert n.0 in z';
    }
  }

  /** The nodes the next one is compared with: a lone NaN, or numbers under other members. */
  lemma KeptNodes(z: Scores, order: seq<Str>, i: nat)
    requires i < |order| && Distinct(order) && forall x :: x in order ==> x in z
    ensures var nodes := Nodes(Kept(z, order[..i]));
      && (i == 0 ==> nodes == {})
      && (i > 0 ==> (order[0], z[order[0]]) in nodes)
      && (i > 0 && !IsNaN(z[order[0]]) ==> forall n :: n in nodes ==> !IsNaN(n.1))
      && (forall n :: n in nodes ==> n.0 != order[i] && n.0 in Kept(z, order[..i]))
  {
    KeptSnoc(z, order, i);
    if i > 0 {
      assert order[..i][0] == order[0];
      assert order[0] in Kept(z, order[..i]);
    }
  }
}
