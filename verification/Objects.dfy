/** What the object classes have in common (include/redis_object.h). */
module Objects {
  import opened Bytes

  /** The limit on the encoded length of an object: 256 MB (src/redis_service.cpp:212). */
  const MAX_OBJECT_SIZE: nat := 268435456

  /** CommandExecuteState. */
  datatype State = NoChange | Modified | ModifiedToEmpty

  /** The verdict that describes what happened to an object. */
  function Outcome(changed: bool, emptied: bool): State {
    if !changed then NoChange else if emptied then ModifiedToEmpty else Modified
  }

  // ---- enumerations: the iteration order of a hash container is unspecified ----------------------

  ghost predicate Distinct(l: seq<Str>) {
    forall i, j :: 0 <= i < j < |l| ==> l[i] != l[j]
  }

  ghost function SetOf(l: seq<Str>): set<Str> { set x | x in l }

  /** `order` lists the members of s, each once. */
  ghost predicate IsOrder(order: seq<Str>, s: set<Str>) {
    Distinct(order) && SetOf(order) == s
  }

  lemma {:induction false} DistinctSize(l: seq<Str>)
    requires Distinct(l)
    ensures |SetOf(l)| == |l|
  {
    if l != [] {
      DistinctSize(l[1..]);
      assert l[0] !in l[1..];
      assert SetOf(l) == {l[0]} + SetOf(l[1..]);
    }
  }

  /** Bytes the members occupy, each behind its 32-bit length. */
  ghost function MembersLength(s: set<Str>): nat {
    if s == {} then 0
    else
      var x :| x in s;
      4 + |x| + MembersLength(s - {x})
  }

  lemma {:induction false} MembersLengthTake(s: set<Str>, x: Str)
    requires x in s
    ensures MembersLength(s) == 4 + |x| + MembersLength(s - {x})
    decreases |s|
  {
    var y :| y in s && MembersLength(s) == 4 + |y| + MembersLength(s - {y});
    if y != x {
      assert (s - {y}) - {x} == (s - {x}) - {y};
      MembersLengthTake(s - {y}, x);
      MembersLengthTake(s - {x}, y);
    }
  }

  /** The sum over the members is the sum along any enumeration. */
  lemma {:induction false} OrderLength(order: seq<Str>)
    requires Distinct(order)
    ensures MembersLength(SetOf(order)) == SizedLength(order)
  {
    if order != [] {
      assert order[0] !in order[1..];
      assert SetOf(order) - {order[0]} == SetOf(order[1..]);
      MembersLengthTake(SetOf(order), order[0]);
      OrderLength(order[1..]);
    }
  }

  lemma SetOfSnoc(order: seq<Str>, i: nat)
    requires i < |order|
    ensures SetOf(order[..i + 1]) == SetOf(order[..i]) + {order[i]}
    ensures Distinct(order) ==> Distinct(order[..i]) && order[i] !in SetOf(order[..i])
  {
    assert order[..i + 1] == order[..i] + [order[i]];
  }

  /** A proper subset occupies fewer bytes. */
  lemma {:induction false} MembersLengthSubset(a: set<Str>, b: set<Str>)
    requires a <= b
    ensures MembersLength(a) <= MembersLength(b)
    ensures a != b ==> MembersLength(a) < MembersLength(b)
    decreases |b|
  {
    if a != b {
      var x :| x in b && x !in a;
      MembersLengthTake(b, x);
      MembersLengthSubset(a, b - {x});
    }
  }

  /** The part of a map under some keys. */
  ghost function Restrict<V>(m: map<Str, V>, keys: seq<Str>): map<Str, V>
    requires forall x :: x in keys ==> x in m
  {
    map k | k in keys :: m[k]
  }

  lemma RestrictSnoc<V>(m: map<Str, V>, order: seq<Str>, i: nat)
    requires i < |order| && forall x :: x in order ==> x in m
    ensures Restrict(m, order[..i + 1]) == Restrict(m, order[..i])[order[i] := m[order[i]]]
  {
    assert order[..i + 1] == order[..i] + [order[i]];
  }

  lemma RestrictEnds<V>(m: map<Str, V>, order: seq<Str>)
    requires IsOrder(order, m.Keys)
    ensures Restrict(m, order[..0]) == map[] && Restrict(m, order) == m
  {
    assert forall k :: k in SetOf(order) <==> k in m;
  }
}
