/** GenRandMap (src/eloq_algorithm.cpp): draw `count` slots out of `size`, with or without repetition.

    The std::multimap is a sequence of (set index, result index) pairs sorted by set index; its iterators are
    positions.  The random numbers are an arbitrary input. */
module RandMap {

  type Pairs = seq<(int, int)>

  /** First position whose key is above k: where multimap::emplace puts an equal key. */
  function UpperBound(m: Pairs, k: int): (i: nat)
    ensures i <= |m|
    ensures forall j :: 0 <= j < i ==> m[j].0 <= k
    ensures i < |m| ==> m[i].0 > k
  {
    if m == [] || m[0].0 > k then 0 else 1 + UpperBound(m[1..], k)
  }

  function Emplace(m: Pairs, k: int, v: int): (r: Pairs)
    ensures |r| == |m| + 1
  {
    var i := UpperBound(m, k);
    m[..i] + [(k, v)] + m[i..]
  }

  ghost predicate Sorted(m: Pairs) {
    forall i, j :: 0 <= i < j < |m| ==> m[i].0 <= m[j].0
  }

  ghost predicate DistinctKeys(m: Pairs) {
    forall i, j :: 0 <= i < j < |m| ==> m[i].0 < m[j].0
  }

  predicate HasKey(m: Pairs, k: int) { exists j :: 0 <= j < |m| && m[j].0 == k }

  predicate HasSlot(m: Pairs, v: int) { exists j :: 0 <= j < |m| && m[j].1 == v }

  /** After n draws: keys in range and sorted, and every result slot 0..n-1 is named exactly once. */
  ghost predicate Drawn(m: Pairs, size: int, n: nat) {
    && |m| == n && Sorted(m)
    && (forall j :: 0 <= j < n ==> 0 <= m[j].0 < size && 0 <= m[j].1 < n)
    && (forall i, j :: 0 <= i < j < n ==> m[i].1 != m[j].1)
    && (forall v :: 0 <= v < n ==> HasSlot(m, v))
  }

  /** Element by element, what emplace builds. */
  ghost predicate Inserted(m: Pairs, i: nat, p: (int, int), r: Pairs) {
    && i <= |m| && |r| == |m| + 1
    && (forall j :: 0 <= j < i ==> r[j] == m[j])
    && r[i] == p
    && (forall j :: i < j < |r| ==> r[j] == m[j - 1])
  }

  lemma InsertedKeys(m: Pairs, i: nat, k: int, v: int, r: Pairs)
    requires Inserted(m, i, (k, v), r) && Sorted(m)
    requires (forall j :: 0 <= j < i ==> m[j].0 <= k) && (i < |m| ==> m[i].0 > k)
    ensures Sorted(r)
    ensures DistinctKeys(m) && !HasKey(m, k) ==> DistinctKeys(r)
  {
    assert forall j :: i < j < |m| ==> m[i].0 <= m[j].0;
    forall a, b | 0 <= a < b < |r| ensures r[a].0 <= r[b].0 {
      assert r[a] == if a < i then m[a] else if a == i then (k, v) else m[a - 1];
      assert r[b] == if b < i then m[b] else if b == i then (k, v) else m[b - 1];
    }
    if DistinctKeys(m) && !HasKey(m, k) {
      InsertedDistinct(m, i, k, v, r);
    }
  }

  lemma InsertedDistinct(m: Pairs, i: nat, k: int, v: int, r: Pairs)
    requires Inserted(m, i, (k, v), r) && DistinctKeys(m) && !HasKey(m, k)
    requires (forall j :: 0 <= j < i ==> m[j].0 <= k) && (i < |m| ==> m[i].0 > k)
    ensures DistinctKeys(r)
  {
    assert forall j :: 0 <= j < i ==> m[j].0 < k;
    assert forall j :: i < j < |m| ==> m[i].0 < m[j].0;
    forall a, b | 0 <= a < b < |r| ensures r[a].0 < r[b].0 {
      assert r[a] == if a < i then m[a] else if a == i then (k, v) else m[a - 1];
      assert r[b] == if b < i then m[b] else if b == i then (k, v) else m[b - 1];
    }
  }

  lemma InsertedSlots(m: Pairs, i: nat, k: int, size: int, r: Pairs)
    requires Inserted(m, i, (k, |m|), r) && Drawn(m, size, |m|) && 0 <= k < size
    ensures forall j :: 0 <= j < |r| ==> 0 <= r[j].0 < size && 0 <= r[j].1 < |r|
    ensures forall j, l :: 0 <= j < l < |r| ==> r[j].1 != r[l].1
    ensures forall v :: 0 <= v < |r| ==> HasSlot(r, v)
  {
    forall v | 0 <= v < |r| ensures HasSlot(r, v) {
      if v == |m| {
        assert r[i].1 == v;
      } else {
        assert HasSlot(m, v);
        var j :| 0 <= j < |m| && m[j].1 == v;
        assert r[if j < i then j else j + 1].1 == v;
      }
    }
  }

  /** The next draw takes result slot |m|. */
  lemma EmplaceDraws(m: Pairs, size: int, k: int)
    requires Drawn(m, size, |m|) && 0 <= k < size
    ensures Drawn(Emplace(m, k, |m|), size, |m| + 1)
    ensures DistinctKeys(m) && !HasKey(m, k) ==> DistinctKeys(Emplace(m, k, |m|))
  {
    var i, r := UpperBound(m, k), Emplace(m, k, |m|);
    assert Inserted(m, i, (k, |m|), r);
    hide Sorted, DistinctKeys, HasKey, Inserted, HasSlot, Emplace;
    InsertedKeys(m, i, k, |m|, r);
    InsertedSlots(m, i, k, size, r);
  }

  /** Pigeonhole: fewer keys than slots leaves a free slot. */
  lemma FreeSlot(m: Pairs, size: int) returns (f: int)
    requires DistinctKeys(m) && |m| < size && forall j :: 0 <= j < |m| ==> 0 <= m[j].0 < size
    ensures 0 <= f < size && !HasKey(m, f)
  {
    f := 0;
    while f < |m| && m[f].0 == f
      invariant 0 <= f <= |m| && forall j :: 0 <= j < f ==> m[j].0 == j
    {
      f := f + 1;
    }
    if f < |m| {
      assert m[f].0 > f by {
        if f > 0 {
          assert m[f - 1].0 < m[f].0;
        }
      }
      assert forall j :: f < j < |m| ==> m[f].0 < m[j].0;
    }
  }

  /** multimap::find on distinct keys: the position of the key, or |m|. */
  method Find(m: Pairs, k: int) returns (i: nat)
    ensures i <= |m| && (i < |m| ==> m[i].0 == k) && (i == |m| ==> !HasKey(m, k))
  {
    i := 0;
    while i < |m| && m[i].0 != k
      invariant i <= |m| && forall j :: 0 <= j < i ==> m[j].0 != k
    {
      i := i + 1;
    }
  }

  /** The slot d steps on, going round at size. */
  function Onward(start: int, d: int, size: int): int {
    if start + d < size then start + d else start + d - size
  }

  /** The slots of the first d steps are taken. */
  ghost predicate AllTaken(taken: seq<int>, size: int, start: int, d: int) {
    forall e :: 0 <= e < d ==> Onward(start, e, size) in taken
  }

  /** k is the first slot from start on, going round, that is not taken. */
  ghost predicate FirstFree(taken: seq<int>, size: int, start: int, k: int) {
    && k !in taken
    && exists d :: 0 <= d < size && k == Onward(start, d, size) && AllTaken(taken, size, start, d)
  }

  /** The keys of the result slots: with repetition each as drawn, without it the first free slot from there on. */
  ghost predicate DrawnKeys(keys: seq<int>, size: int, repeat: bool, rnd: nat -> nat)
    requires keys != [] ==> size > 0
  {
    forall i :: 0 <= i < |keys| ==>
      if repeat then keys[i] == rnd(i) % size else FirstFree(keys[..i], size, rnd(i) % size, keys[i])
  }

  /** The map holds exactly the pairs of a key and its result slot. */
  ghost predicate Records(m: Pairs, keys: seq<int>) {
    forall k, v :: (k, v) in m <==> 0 <= v < |keys| && keys[v] == k
  }

  lemma KeyIffTaken(m: Pairs, keys: seq<int>, k: int)
    requires Records(m, keys)
    ensures HasKey(m, k) <==> k in keys
  {
    if HasKey(m, k) {
      var j :| 0 <= j < |m| && m[j].0 == k;
      assert m[j] == (k, m[j].1) && (k, m[j].1) in m;
      assert keys[m[j].1] == k;
    }
    if k in keys {
      var v :| 0 <= v < |keys| && keys[v] == k;
      assert (k, v) in m;
      var j :| 0 <= j < |m| && m[j] == (k, v);
      assert m[j].0 == k;
    }
  }

  lemma RecordOf(m: Pairs, keys: seq<int>, i: nat) returns (j: nat)
    requires Records(m, keys) && i < |keys|
    ensures j < |m| && m[j] == (keys[i], i)
  {
    var k := keys[i];
    assert (k, i) in m;
    j :| 0 <= j < |m| && m[j] == (k, i);
  }

  lemma EmplaceRecords(m: Pairs, keys: seq<int>, k: int)
    requires Records(m, keys)
    ensures Records(Emplace(m, k, |keys|), keys + [k])
  {
    var i := UpperBound(m, k);
    assert m == m[..i] + m[i..];
    var r, keys' := Emplace(m, k, |keys|), keys + [k];
    forall a, b ensures (a, b) in r <==> 0 <= b < |keys'| && keys'[b] == a {
      assert (a, b) in r <==> (a, b) in m || (a, b) == (k, |keys|);
    }
  }

  /** The probe (lines 56-75): the map cursor and the slot number move in lockstep, so the cursor is always the
      cyclic successor of the slot just probed and a mismatch means the next slot is free. */
  method Probe(m: Pairs, size: int, iter0: nat, ran0: int, ghost keys: seq<int>) returns (ran: int)
    requires DistinctKeys(m) && |m| < size && forall j :: 0 <= j < |m| ==> 0 <= m[j].0 < size
    requires iter0 < |m| && m[iter0].0 == ran0 && Records(m, keys)
    ensures 0 <= ran < size && !HasKey(m, ran)
    ensures FirstFree(keys, size, ran0, ran)
  {
    hide Records, DistinctKeys;
    var iter := iter0;
    ran := ran0;
    ghost var f := FreeSlot(m, size);
    ghost var far := if f > ran0 then f - ran0 else f - ran0 + size;
    ghost var d := 0;
    KeyIffTaken(m, keys, f);
    KeyIffTaken(m, keys, ran0);
    while true
      invariant 0 <= iter < |m| && m[iter].0 == ran
      invariant 0 <= d < far < size && f == Onward(ran0, far, size) && ran == Onward(ran0, d, size)
      invariant AllTaken(keys, size, ran0, d + 1)
      decreases far - d
    {
      ghost var prev, at := ran, iter;
      iter := iter + 1;
      ran := ran + 1;
      d := d + 1;
      if iter == |m| {
        iter := 0;
      }
      if ran == size {
        ran := 0;
      }
      if ran != m[iter].0 {
        Unoccupied(m, size, at, iter, prev, ran);
        KeyIffTaken(m, keys, ran);
        assert ran == Onward(ran0, d, size) && AllTaken(keys, size, ran0, d);
        break;
      }
      assert HasKey(m, ran);
      KeyIffTaken(m, keys, ran);
    }
  }

  lemma Unoccupied(m: Pairs, size: int, at: nat, iter: nat, prev: int, ran: int)
    requires DistinctKeys(m) && forall j :: 0 <= j < |m| ==> 0 <= m[j].0 < size
    requires at < |m| && m[at].0 == prev && iter == (if at + 1 == |m| then 0 else at + 1)
    requires ran == (if prev + 1 == size then 0 else prev + 1) && ran != m[iter].0
    ensures !HasKey(m, ran)
  {
    assert forall j :: 0 <= j < at ==> m[j].0 < prev;
    assert forall j :: at < j < |m| ==> m[j].0 > prev;
    if at + 1 < |m| {
      assert prev + 1 < size;
      assert forall j :: at + 1 < j < |m| ==> m[j].0 > m[at + 1].0;
    } else if prev + 1 == size {
      assert forall j :: 0 < j < |m| ==> m[0].0 < m[j].0;
    }
  }

  /** GenRandMap.  Each result slot is used once; its key is the number drawn for it, or without repetition the first
      free one from there on, so that the keys are distinct. */
  method GenRandMap(size: int, count: nat, repeat: bool, rnd: nat -> nat) returns (m: Pairs, ghost keys: seq<int>)
    requires (count > 0 ==> size > 0) && (!repeat ==> count <= size)
    ensures |m| == count && Drawn(m, size, count)
    ensures !repeat ==> DistinctKeys(m)
    ensures |keys| == count && DrawnKeys(keys, size, repeat, rnd) && Records(m, keys)
  {
    hide Records, FirstFree, Emplace, Drawn, DistinctKeys;
    m, keys := [], [];
    NothingDrawn(size);
    for i := 0 to count
      invariant Drawn(m, size, i) && |m| == i && (!repeat ==> DistinctKeys(m))
      invariant |keys| == i && DrawnKeys(keys, size, repeat, rnd) && Records(m, keys)
    {
      var ran := rnd(i) % size;
      ghost var keys0 := keys;
      if !repeat {
        var iter := Find(m, ran);
        KeyIffTaken(m, keys, ran);
        if iter < |m| {
          InRange(m, size);
          ran := Probe(m, size, iter, ran, keys);
        } else {
          FreeAtOnce(keys, size, ran);
        }
      }
      EmplaceDraws(m, size, ran);
      EmplaceRecords(m, keys, ran);
      keys := keys + [ran];
      m := Emplace(m, ran, i);
      assert forall j :: 0 <= j <= i ==> keys[..j] == keys0[..j];
      assert keys0[..i] == keys0;
    }
  }

  lemma NothingDrawn(size: int)
    ensures Drawn([], size, 0) && DistinctKeys([]) && Records([], [])
  {
  }

  lemma InRange(m: Pairs, size: int)
    requires Drawn(m, size, |m|)
    ensures forall j :: 0 <= j < |m| ==> 0 <= m[j].0 < size
  {
  }

  lemma FreeAtOnce(keys: seq<int>, size: int, ran: int)
    requires 0 <= ran < size && ran !in keys
    ensures FirstFree(keys, size, ran, ran)
  {
    assert ran == Onward(ran, 0, size) && AllTaken(keys, size, ran, 0);
  }
}
