/** What the list commands do, position by position.  `ListRuns.Apply` is what the commits are proved to compute; here
    it is described by indices, cuts and counts alone. */
module ListLaws {
  import opened Bytes
  import opened ListSpec
  import ListObject
  import opened ListRuns

  // ---- pushes and pops ----------------------------------------------------------------------------

  lemma {:induction false} ReverseAt(l: seq<Str>, i: nat)
    requires i < |l|
    ensures Reverse(l)[i] == l[|l| - 1 - i]
  {
    if i < |l| - 1 {
      ReverseAt(l[1..], i);
    }
  }

  /** Both forms of a push: on the right in order, on the left so that the last argument comes first. */
  lemma PushByIndex(l: seq<Str>, es: seq<Str>, x: bool)
    requires x ==> l != []
    ensures var r := Apply(l, if x then RPushX(es) else RPush(es));
      && |r| == |l| + |es|
      && (forall i :: 0 <= i < |l| ==> r[i] == l[i])
      && (forall i :: 0 <= i < |es| ==> r[|l| + i] == es[i])
    ensures var r := Apply(l, if x then LPushX(es) else LPush(es));
      && |r| == |l| + |es|
      && (forall i :: 0 <= i < |es| ==> r[i] == es[|es| - 1 - i])
      && (forall i :: 0 <= i < |l| ==> r[|es| + i] == l[i])
  {
    forall i | 0 <= i < |es| ensures Reverse(es)[i] == es[|es| - 1 - i] {
      ReverseAt(es, i);
    }
  }

  /** LMOVE's push puts the element at the given end. */
  lemma MovePushByIndex(l: seq<Str>, x: Str)
    ensures Apply(l, LMovePush(true, x)) == [x] + l
    ensures Apply(l, LMovePush(false, x)) == l + [x]
  {
    assert Reverse([x]) == [x];
  }

  /** A pop leaves the list without as many elements as asked for, or without all of them, at the given end. */
  lemma PopByIndex(l: seq<Str>, n: int)
    requires l != [] && n >= -1
    ensures var k := if n == -1 then 1 else n;
      && Apply(l, LPop(n)) == (if k < |l| then l[k..] else [])
      && Apply(l, RPop(n)) == (if k < |l| then l[..|l| - k] else [])
    ensures n >= 0 ==> Apply(l, BlockPop(true, n)) == if n < |l| then l[n..] else []
    ensures n >= 0 ==> Apply(l, BlockPop(false, n)) == if n < |l| then l[..|l| - n] else []
    ensures Apply(l, LMovePop(true)) == l[1..] && Apply(l, LMovePop(false)) == l[..|l| - 1]
  {
  }

  /** LTRIM keeps the window from the first to the last position named, cut down to the list. */
  lemma TrimByIndex(l: seq<Str>, start: int, end: int)
    requires l != []
    ensures var first := if start < 0 then |l| + start else start;
      var last := if end < 0 then |l| + end else end;
      var from, to := if first < 0 then 0 else first, if last < |l| then last + 1 else |l|;
      Apply(l, LTrim(start, end)) == if from < to then l[from..to] else []
  {
  }

  // ---- LSET, LINSERT ------------------------------------------------------------------------------

  /** The position LSET writes: -1 is the last element, and indices before the first mean the first. */
  predicate Writes(n: nat, index: int, at: int) {
    at == if index >= 0 then index else if n + index >= 0 then n + index else 0
  }

  /** Exactly one position changes. */
  lemma SetByIndex(l: seq<Str>, index: int, x: Str, at: int)
    requires l != [] && index < |l| && Writes(|l|, index, at)
    ensures Committable(l, LSet(index, x)) && 0 <= at < |l|
    ensures var r := Apply(l, LSet(index, x));
      |r| == |l| && r[at] == x && forall i :: 0 <= i < |l| && i != at ==> r[i] == l[i]
  {
  }

  /** The element stands directly before, or directly after, the first occurrence of the pivot. */
  lemma InsertByIndex(l: seq<Str>, pivot: Str, x: Str, i: nat)
    requires i < |l| && l[i] == pivot && pivot !in l[..i]
    ensures Apply(l, LInsert(true, pivot, x)) == l[..i] + [x, pivot] + l[i + 1..]
    ensures Apply(l, LInsert(false, pivot, x)) == l[..i] + [pivot, x] + l[i + 1..]
  {
    ListObject.FirstIs(l, pivot, i);
    hide FindFirst;
    assert l[i..] == [pivot] + l[i + 1..] && l[..i + 1] == l[..i] + [pivot];
  }

  // ---- LREM ---------------------------------------------------------------------------------------

  /** All but the occurrences of x. */
  function Without(l: seq<Str>, x: Str): seq<Str> {
    if l == [] then [] else (if l[0] == x then [] else [l[0]]) + Without(l[1..], x)
  }

  /** The first k occurrences go: everything up to some cut loses x, everything behind it stays. */
  lemma {:induction false} RemoveFirstCut(l: seq<Str>, x: Str, k: nat) returns (cut: nat)
    ensures cut <= |l| && RemoveFirst(l, x, k) == Without(l[..cut], x) + l[cut..]
    ensures Count(l[..cut], x) == Min(k, Count(l, x))
  {
    if l == [] || k == 0 {
      cut := 0;
    } else {
      var rest := RemoveFirstCut(l[1..], x, if l[0] == x then k - 1 else k);
      cut := rest + 1;
      assert l[..cut][1..] == l[1..][..rest] && l[cut..] == l[1..][rest..];
    }
  }

  lemma {:induction false} WithoutConcat(a: seq<Str>, b: seq<Str>, x: Str)
    ensures Without(a + b, x) == Without(a, x) + Without(b, x)
  {
    if a == [] {
      assert a + b == b;
    } else {
      var first := if a[0] == x then [] else [a[0]];
      assert (a + b)[1..] == a[1..] + b;
      assert Without(a + b, x) == first + Without(a[1..] + b, x) && Without(a, x) == first + Without(a[1..], x);
      hide Without;
      WithoutConcat(a[1..], b, x);
      assert first + (Without(a[1..], x) + Without(b, x)) == (first + Without(a[1..], x)) + Without(b, x);
    }
  }

  lemma {:induction false} WithoutReverse(l: seq<Str>, x: Str)
    ensures Without(Reverse(l), x) == Reverse(Without(l, x))
  {
    if l != [] {
      var first, rest := if l[0] == x then [] else [l[0]], Without(l[1..], x);
      WithoutReverse(l[1..], x);
      WithoutConcat(Reverse(l[1..]), [l[0]], x);
      assert Without([l[0]], x) == first && Without(l, x) == first + rest;
      ReverseConcat(first, rest);
      assert Reverse(first) == first;
    }
  }

  lemma {:induction false} NothingWithout(l: seq<Str>, x: Str)
    requires Count(l, x) == 0
    ensures Without(l, x) == l
  {
    if l != [] {
      NothingWithout(l[1..], x);
    }
  }

  /** r is l without its first k occurrences of x. */
  ghost predicate LosesFirst(l: seq<Str>, x: Str, k: nat, r: seq<Str>) {
    exists cut :: 0 <= cut <= |l| && r == Without(l[..cut], x) + l[cut..] && Count(l[..cut], x) == Min(k, Count(l, x))
  }

  /** r is l without its last k occurrences of x. */
  ghost predicate LosesLast(l: seq<Str>, x: Str, k: nat, r: seq<Str>) {
    exists cut :: 0 <= cut <= |l| && r == l[..cut] + Without(l[cut..], x) && Count(l[cut..], x) == Min(k, Count(l, x))
  }

  lemma RemoveLastCut(l: seq<Str>, x: Str, k: nat)
    ensures LosesLast(l, x, k, Reverse(RemoveFirst(Reverse(l), x, k)))
  {
    var back := RemoveFirstCut(Reverse(l), x, k);
    var cut := |l| - back;
    var a, b := l[..cut], l[cut..];
    assert l == a + b;
    ReverseConcat(a, b);
    hide Reverse, RemoveFirst, Without;
    assert Reverse(l)[..back] == Reverse(b) && Reverse(l)[back..] == Reverse(a);
    CountReverse(b, x);
    CountReverse(l, x);
    WithoutReverse(b, x);
    ReverseConcat(Reverse(Without(b, x)), Reverse(a));
    ReverseTwice(a);
    ReverseTwice(Without(b, x));
  }

  lemma RemoveNCut(l: seq<Str>, x: Str, k: nat)
    ensures LosesFirst(l, x, k, RemoveN(l, x, false, k))
    ensures LosesLast(l, x, k, RemoveN(l, x, true, k))
  {
    var cut := RemoveFirstCut(l, x, k);
    RemoveLastCut(l, x, k);
  }

  /** Losing the first |l| occurrences is losing them all. */
  lemma RemoveAll(l: seq<Str>, x: Str)
    ensures RemoveN(l, x, false, |l|) == Without(l, x)
  {
    var cut := RemoveFirstCut(l, x, |l|);
    CountBound(l, x);
    assert l == l[..cut] + l[cut..];
    CountConcat(l[..cut], l[cut..], x);
    WithoutConcat(l[..cut], l[cut..], x);
    NothingWithout(l[cut..], x);
  }

  /** LREM: a positive count takes that many occurrences from the front, a negative one from the back, zero all. */
  lemma LRemByCut(l: seq<Str>, count: int, x: Str)
    ensures count > 0 ==> LosesFirst(l, x, count, ListSpec.LRem(l, count, x))
    ensures count < 0 ==> LosesLast(l, x, -count, ListSpec.LRem(l, count, x))
    ensures count == 0 ==> ListSpec.LRem(l, count, x) == Without(l, x)
  {
    hide LosesFirst, LosesLast;
    RemoveAll(l, x);
    RemoveNCut(l, x, Abs(count));
  }

  /** The commit does the same with the count it has left: the low 32 bits, read as a signed number. */
  lemma CommitLRemByCut(l: seq<Str>, count: int, x: Str, low: int)
    requires l != []
    requires -0x8000_0000 <= low < 0x8000_0000 && (low - Abs(count)) % 0x1_0000_0000 == 0
    ensures var r, k := Apply(l, ListRuns.LRem(count, x)), if low < 0 then 0 else low;
      && (count > 0 ==> LosesFirst(l, x, k, r))
      && (count < 0 ==> LosesLast(l, x, k, r))
      && (count == 0 ==> r == Without(l, x))
  {
    hide LosesFirst, LosesLast;
    assert Int32(Abs(count)) == low;
    RemoveAll(l, x);
    RemoveNCut(l, x, if low < 0 then 0 else low);
  }

  /** LREM 1 on a list with two occurrences takes the first, LREM -1 the last. */
  lemma LRemEnds()
    ensures ListSpec.LRem([[1], [2], [1]], 1, [1]) == [[2], [1]]
    ensures ListSpec.LRem([[1], [2], [1]], -1, [1]) == [[1], [2]]
  {
    assert [[1], [2], [1]][1..] == [[2], [1]] && [[2], [1]][1..] == [[1]];
    assert Reverse([[1], [2], [1]]) == [[1], [2], [1]];
    assert Reverse([[2], [1]]) == [[1], [2]];
  }
}
