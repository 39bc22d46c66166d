/** What the list commands mean, on plain sequences (src/redis_list_object.cpp).

    Every command has two halves: `Execute` looks at the list, decides whether anything will change and may
    rewrite the command's arguments; `Commit` changes the list.  On a standby, and during log recovery, only
    `Commit` runs, with the arguments the client sent. */
module ListSpec {
  import opened Bytes
  import opened Objects

  function Verdict(before: seq<Str>, after: seq<Str>): State {
    Outcome(after != before, after == [])
  }

  function EncodedLength(l: seq<Str>): nat { 5 + SizedLength(l) }

  /** The encoding is within the limit. */
  predicate Small(l: seq<Str>) { EncodedLength(l) <= MAX_OBJECT_SIZE }

  function Min(a: int, b: int): int { if a < b then a else b }

  function Reverse(l: seq<Str>): (r: seq<Str>)
    ensures |r| == |l|
  {
    if l == [] then [] else Reverse(l[1..]) + [l[0]]
  }

  // ---- pops and pushes ------------------------------------------------------------------------

  function PopLeft(l: seq<Str>, count: nat): seq<Str> { l[Min(count, |l|)..] }

  function PopRight(l: seq<Str>, count: nat): seq<Str> { l[..|l| - Min(count, |l|)] }

  function Push(l: seq<Str>, left: bool, elements: seq<Str>): seq<Str> {
    if left then Reverse(elements) + l else l + elements
  }

  // ---- LTRIM ------------------------------------------------------------------------------------

  /** NormalizeLTrimRange. On an empty list a large end becomes -1: the size is unsigned in the source, but
      the difference is stored back into a signed 64-bit integer. */
  function NormalizeTrim(n: nat, start: int, end: int): (int, int) {
    var s := if start < 0 then (if n + start < 0 then 0 else n + start)
             else if start > n then n else start;
    if end < 0 then
      if n + end < 0 then (1, 0) else (s, n + end)
    else if end >= n then (s, n - 1)
    else (s, end)
  }

  /** The window of positions LTRIM keeps, as the command reference describes it: offsets below zero count
      from the end, and positions outside the list are ignored. */
  predicate Kept(n: nat, start: int, end: int, i: int) {
    && 0 <= i < n
    && (if start < 0 then n + start else start) <= i
    && i <= (if end < 0 then n + end else end)
  }

  function Trim(l: seq<Str>, start: int, end: int): seq<Str> {
    var (s, e) := NormalizeTrim(|l|, start, end);
    if e - s + 1 <= 0 then [] else l[s..e + 1]
  }

  // ---- LSET, LINSERT, LREM ------------------------------------------------------------------------

  /** ConvertListIndex: an index too far below zero becomes 0. */
  function ConvertIndex(n: nat, index: int): int {
    if index < 0 then (if n + index < 0 then 0 else n + index) else index
  }

  function FindFirst(l: seq<Str>, x: Str): (i: nat)
    ensures i <= |l| && (i < |l| ==> l[i] == x) && forall j :: 0 <= j < i ==> l[j] != x
  {
    if l == [] || l[0] == x then 0 else 1 + FindFirst(l[1..], x)
  }

  function Insert(l: seq<Str>, before: bool, pivot: Str, x: Str): seq<Str> {
    var i := FindFirst(l, pivot);
    var at := if before || i == |l| then i else i + 1;
    l[..at] + [x] + l[at..]
  }

  function Count(l: seq<Str>, x: Str): nat {
    if l == [] then 0 else (if l[0] == x then 1 else 0) + Count(l[1..], x)
  }

  /** Without the first k occurrences of x. */
  function RemoveFirst(l: seq<Str>, x: Str, k: nat): seq<Str> {
    if l == [] || k == 0 then l
    else if l[0] == x then RemoveFirst(l[1..], x, k - 1)
    else [l[0]] + RemoveFirst(l[1..], x, k)
  }

  function Abs(x: int): nat { if x < 0 then -x else x }

  /** A 64-bit count stored into a 32-bit int, as CommitLRem does. */
  function Int32(x: nat): int {
    var m := x % 0x1_0000_0000;
    if m < 0x8000_0000 then m else m - 0x1_0000_0000
  }

  /** How many occurrences CommitLRem is prepared to remove. */
  function CommitLimit(l: seq<Str>, count: int): nat {
    if count == 0 then |l| else if Int32(Abs(count)) < 0 then 0 else Int32(Abs(count))
  }

  function RemoveN(l: seq<Str>, x: Str, fromEnd: bool, k: nat): seq<Str> {
    if fromEnd then Reverse(RemoveFirst(Reverse(l), x, k)) else RemoveFirst(l, x, k)
  }

  /** LREM as the command reference describes it: |count| occurrences, all of them for 0. */
  function LRem(l: seq<Str>, count: int, x: Str): seq<Str> {
    RemoveN(l, x, count < 0, if count == 0 then |l| else Abs(count))
  }

  /** LREM as CommitLRem does it. */
  function LRemCommitted(l: seq<Str>, count: int, x: Str): seq<Str> {
    RemoveN(l, x, count < 0, CommitLimit(l, count))
  }

  // ---- facts ----------------------------------------------------------------------------------

  lemma {:induction false} ReverseConcat(a: seq<Str>, b: seq<Str>)
    ensures Reverse(a + b) == Reverse(b) + Reverse(a)
  {
    if a == [] {
      assert a + b == b;
    } else {
      ReverseConcat(a[1..], b);
      assert (a + b)[1..] == a[1..] + b;
    }
  }

  lemma {:induction false} ReverseTwice(l: seq<Str>)
    ensures Reverse(Reverse(l)) == l
  {
    if l != [] {
      ReverseTwice(l[1..]);
      ReverseConcat(Reverse(l[1..]), [l[0]]);
      assert Reverse([l[0]]) == [l[0]];
    }
  }

  lemma {:induction false} CountConcat(a: seq<Str>, b: seq<Str>, x: Str)
    ensures Count(a + b, x) == Count(a, x) + Count(b, x)
  {
    if a == [] {
      assert a + b == b;
    } else {
      CountConcat(a[1..], b, x);
      assert (a + b)[1..] == a[1..] + b;
    }
  }

  lemma {:induction false} CountReverse(l: seq<Str>, x: Str)
    ensures Count(Reverse(l), x) == Count(l, x)
  {
    if l != [] {
      CountReverse(l[1..], x);
      CountConcat(Reverse(l[1..]), [l[0]], x);
    }
  }

  lemma {:induction false} CountBound(l: seq<Str>, x: Str)
    ensures Count(l, x) <= |l|
  {
    if l != [] {
      CountBound(l[1..], x);
    }
  }

  lemma {:induction false} RemoveFirstLength(l: seq<Str>, x: Str, k: nat)
    ensures |RemoveFirst(l, x, k)| == |l| - Min(k, Count(l, x))
    ensures Count(RemoveFirst(l, x, k), x) == Count(l, x) - Min(k, Count(l, x))
  {
    if l != [] && k > 0 {
      if l[0] == x {
        RemoveFirstLength(l[1..], x, k - 1);
      } else {
        RemoveFirstLength(l[1..], x, k);
        assert RemoveFirst(l, x, k)[1..] == RemoveFirst(l[1..], x, k);
      }
    }
  }

  /** Removing nothing leaves the list; removing more than there are is the same as removing all. */
  lemma {:induction false} RemoveFirstSaturates(l: seq<Str>, x: Str, k: nat)
    ensures RemoveFirst(l, x, k) == RemoveFirst(l, x, Min(k, Count(l, x)))
    ensures Min(k, Count(l, x)) == 0 ==> RemoveFirst(l, x, k) == l
  {
    if l != [] && k > 0 {
      if l[0] == x {
        RemoveFirstSaturates(l[1..], x, k - 1);
      } else {
        RemoveFirstSaturates(l[1..], x, k);
      }
    }
  }

  /** What RemoveN takes away: exactly min(k, occurrences) elements, all equal to x. */
  lemma RemoveNLength(l: seq<Str>, x: Str, fromEnd: bool, k: nat)
    ensures |RemoveN(l, x, fromEnd, k)| == |l| - Min(k, Count(l, x))
    ensures Min(k, Count(l, x)) == 0 ==> RemoveN(l, x, fromEnd, k) == l
    ensures RemoveN(l, x, fromEnd, k) == RemoveN(l, x, fromEnd, Min(k, Count(l, x)))
  {
    RemoveFirstLength(l, x, k);
    RemoveFirstLength(Reverse(l), x, k);
    RemoveFirstSaturates(l, x, k);
    RemoveFirstSaturates(Reverse(l), x, k);
    CountReverse(l, x);
    ReverseTwice(l);
  }

  /** LREM with -k is LREM with k on the reversed list, reversed back. */
  lemma LRemMirror(l: seq<Str>, k: int, x: Str)
    requires k > 0
    ensures LRem(l, -k, x) == Reverse(LRem(Reverse(l), k, x))
    ensures LRem(l, k, x) == Reverse(LRem(Reverse(l), -k, x))
  {
    ReverseTwice(l);
    ReverseTwice(RemoveFirst(l, x, k));
  }

  /** The 32-bit counter of CommitLRem agrees with LREM exactly when the count fits, or when the truncated
      count already covers every occurrence. */
  lemma LRemAgreesIff(l: seq<Str>, count: int, x: Str)
    ensures LRemCommitted(l, count, x) == LRem(l, count, x) <==>
            Abs(count) < 0x8000_0000 || Count(l, x) <= CommitLimit(l, count)
  {
    var n := Count(l, x);
    CountBound(l, x);
    RemoveNLength(l, x, count < 0, CommitLimit(l, count));
    RemoveNLength(l, x, count < 0, if count == 0 then |l| else Abs(count));
  }

  /** A count of 2^31 is accepted by Execute as one removal and then removes nothing. */
  lemma LRemTruncationWitness()
    ensures LRem([[1]], 0x8000_0000, [1]) == [] && LRemCommitted([[1]], 0x8000_0000, [1]) == [[1]]
  {
    assert Int32(0x8000_0000) < 0;
  }

  /** Normalising against a non-empty list twice is the same as once. */
  lemma TrimIdempotent(n: nat, start: int, end: int)
    requires n > 0
    ensures var (s, e) := NormalizeTrim(n, start, end); NormalizeTrim(n, s, e) == (s, e)
  {
  }

  /** LTRIM keeps exactly the elements in the window, in order. */
  lemma TrimKeepsWindow(l: seq<Str>, start: int, end: int)
    ensures var (s, e) := NormalizeTrim(|l|, start, end);
            && (Trim(l, start, end) == [] <==> forall i :: !Kept(|l|, start, end, i))
            && (Trim(l, start, end) != [] ==>
                  0 <= s <= e < |l| && Trim(l, start, end) == l[s..e + 1]
                  && forall i :: Kept(|l|, start, end, i) <==> s <= i <= e)
  {
    var (s, e) := NormalizeTrim(|l|, start, end);
    if e - s + 1 > 0 {
      assert Kept(|l|, start, end, s);
    }
  }
}
