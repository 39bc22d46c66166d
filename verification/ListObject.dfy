/** RedisListObject (src/redis_list_object.cpp, include/redis_list_object.h): the deque, its cached encoded
    length, and the Execute / Commit pairs. */
module ListObject {
  import opened Bytes
  import opened Objects
  import opened ListSpec
  import opened ObjectCodec

  datatype Code = Ok | Nil | TooBig | IndexOutOfRange

  class RedisListObject {
    var list: seq<Str>
    var serializedLength: int
    /** Every size assertion that a commit has come to so far held. */
    ghost var sound: bool

    /** The cached length is the length of the encoding. */
    ghost predicate Valid()
      reads this
    {
      serializedLength == EncodedLength(list)
    }

    constructor ()
      ensures Valid() && list == [] && sound
    {
      list := [];
      serializedLength := 5;
      sound := true;
    }

    // ---- pushes -------------------------------------------------------------------------------

    /** Execute for RPUSH, LPUSH, LPUSHX and RPUSHX: the four bodies are the same. */
    method ExecutePush(elements: seq<Str>) returns (state: State, code: Code, ret: int)
      requires Valid()
      ensures code == Ok <==> EncodedLength(list + elements) <= MAX_OBJECT_SIZE
      ensures code == Ok ==> state == Modified && ret == |list + elements|
      ensures code != Ok ==> state == NoChange && code == TooBig
    {
      var increase := 0;
      for i := 0 to |elements|
        invariant increase == SizedLength(elements[..i])
      {
        increase := increase + 4 + |elements[i]|;
        SizedSnoc(elements, i);
      }
      assert elements[..|elements|] == elements;
      SizedLengthConcat(list, elements);
      if serializedLength + increase > MAX_OBJECT_SIZE {
        return NoChange, TooBig, 0;
      }
      return Modified, Ok, |list| + |elements|;
    }

    method CommitRPush(elements: seq<Str>)
      requires Valid()
      modifies this
      ensures Valid() && list == Push(old(list), false, elements)
      ensures sound == (old(sound) && (elements == [] || Small(list)))
    {
      for i := 0 to |elements|
        invariant Valid() && list == old(list) + elements[..i]
        invariant sound == (old(sound) && (i == 0 || Small(list)))
      {
        serializedLength := serializedLength + 4 + |elements[i]|;
        sound := sound && serializedLength <= MAX_OBJECT_SIZE;
        SizedLengthConcat(list, [elements[i]]);
        list := list + [elements[i]];
        assert list == old(list) + elements[..i + 1];
      }
      assert elements[..|elements|] == elements;
    }

    method CommitLPush(elements: seq<Str>)
      requires Valid()
      modifies this
      ensures Valid() && list == Push(old(list), true, elements)
      ensures sound == (old(sound) && (elements == [] || Small(list)))
    {
      hide Reverse, SizedLength;
      PushFrontStart(elements, list);
      for i := 0 to |elements|
        invariant Valid() && list == Reverse(elements[..i]) + old(list)
        invariant sound == (old(sound) && (i == 0 || Small(list)))
      {
        PushFrontStep(elements, i, list, old(list));
        serializedLength := serializedLength + 4 + |elements[i]|;
        sound := sound && serializedLength <= MAX_OBJECT_SIZE;
        list := [elements[i]] + list;
      }
      assert elements[..|elements|] == elements;
    }

    // ---- pops -----------------------------------------------------------------------------------

    /** Execute for LPOP; a missing count is stored as -1. */
    method ExecuteLPop(count: int) returns (state: State, elements: seq<Str>, ret: int)
      requires count >= -1
      ensures elements + PopLeft(list, if count == -1 then 1 else count) == list
      ensures state == Verdict(list, PopLeft(list, if count == -1 then 1 else count)) && ret == |elements|
    {
      var n := if count == -1 then 1 else count;
      var num := Min(n, |list|);
      elements := [];
      var idx := 0;
      while idx < |list| && idx < num
        invariant 0 <= idx <= num && elements == list[..idx]
      {
        elements := elements + [list[idx]];
        idx := idx + 1;
      }
      ret := num;
      state := if num == 0 then NoChange else if num >= |list| then ModifiedToEmpty else Modified;
    }

    /** Execute for RPOP: the elements come out last first. */
    method ExecuteRPop(count: int) returns (state: State, elements: seq<Str>, ret: int)
      requires count >= -1
      ensures PopRight(list, if count == -1 then 1 else count) + Reverse(elements) == list
      ensures state == Verdict(list, PopRight(list, if count == -1 then 1 else count)) && ret == |elements|
    {
      var n := if count == -1 then 1 else count;
      var num := Min(n, |list|);
      elements := [];
      var idx := 0;
      while idx < |list| && idx < num
        invariant 0 <= idx <= num && Reverse(elements) == list[|list| - idx..]
      {
        ReverseConcat(elements, [list[|list| - 1 - idx]]);
        elements := elements + [list[|list| - 1 - idx]];
        idx := idx + 1;
      }
      ret := num;
      state := if num == 0 then NoChange else if num >= |list| then ModifiedToEmpty else Modified;
    }

    method CommitLPop(count: nat) returns (empty: bool)
      requires Valid()
      modifies this
      ensures Valid() && list == PopLeft(old(list), count) && empty == (list == [])
      ensures sound == (old(sound) && Small(list))
    {
      var num := Min(|list|, count);
      DropHead(num);
      sound := sound && serializedLength <= MAX_OBJECT_SIZE;
      empty := list == [];
    }

    /** Subtract the lengths of the first elements, then erase them. */
    method DropHead(num: nat)
      requires Valid() && num <= |list|
      modifies this
      ensures Valid() && list == old(list)[num..] && sound == old(sound)
    {
      for i := 0 to num
        invariant list == old(list) && sound == old(sound)
        invariant serializedLength == EncodedLength(list) - SizedLength(list[..i])
      {
        serializedLength := serializedLength - (4 + |list[i]|);
        SizedSnoc(list, i);
      }
      SizedLengthConcat(list[..num], list[num..]);
      assert list[..num] + list[num..] == list;
      list := list[num..];
    }

    method CommitRPop(count: nat) returns (empty: bool)
      requires Valid()
      modifies this
      ensures Valid() && list == PopRight(old(list), count) && empty == (list == [])
      ensures sound == (old(sound) && Small(list))
    {
      var begin := |list| - Min(count, |list|);
      DropTail(begin);
      sound := sound && serializedLength <= MAX_OBJECT_SIZE;
      empty := list == [];
    }

    /** The shared tail of the erase loops: subtract the lengths, then erase from `begin` to the end. */
    method DropTail(begin: nat)
      requires Valid() && begin <= |list|
      modifies this
      ensures Valid() && list == old(list)[..begin] && sound == old(sound)
    {
      for i := begin to |list|
        invariant list == old(list) && sound == old(sound)
        invariant serializedLength == EncodedLength(list) - SizedLength(list[begin..i])
      {
        serializedLength := serializedLength - (4 + |list[i]|);
        SizedLengthConcat(list[begin..i], [list[i]]);
        assert list[begin..i + 1] == list[begin..i] + [list[i]];
      }
      assert list[begin..|list|] == list[begin..];
      SizedLengthConcat(list[..begin], list[begin..]);
      assert list[..begin] + list[begin..] == list;
      list := list[..begin];
    }

    method ExecuteLMovePop(left: bool) returns (state: State, code: Code, element: Str)
      ensures state == Verdict(list, if left then PopLeft(list, 1) else PopRight(list, 1))
      ensures code == (if list == [] then Nil else Ok)
      ensures list != [] ==>
                (left ==> [element] + PopLeft(list, 1) == list) && (!left ==> PopRight(list, 1) + [element] == list)
    {
      if list == [] {
        return NoChange, Nil, [];
      }
      element := if left then list[0] else list[|list| - 1];
      code := Ok;
      state := if |list| == 1 then ModifiedToEmpty else Modified;
    }

    method CommitLMovePop(left: bool) returns (empty: bool)
      requires Valid() && list != []
      modifies this
      ensures Valid() && list == (if left then PopLeft(old(list), 1) else PopRight(old(list), 1))
      ensures empty == (list == []) && sound == old(sound)
    {
      if left {
        serializedLength := serializedLength - (4 + |list[0]|);
        list := list[1..];
      } else {
        var last := |list| - 1;
        SizedLengthConcat(list[..last], [list[last]]);
        assert list[..last] + [list[last]] == list;
        serializedLength := serializedLength - (4 + |list[last]|);
        list := list[..last];
      }
      empty := list == [];
    }

    /** The size test of LMOVE's push leaves out the 4-byte length header. */
    method ExecuteLMovePush(element: Str) returns (state: State, code: Code, ret: int)
      requires Valid()
      ensures code == Ok <==> EncodedLength(list) + |element| <= MAX_OBJECT_SIZE
      ensures state == (if code == Ok then Modified else NoChange) && (code == Ok || code == TooBig)
    {
      if serializedLength + |element| > MAX_OBJECT_SIZE {
        return NoChange, TooBig, 0;
      }
      return Modified, Ok, 1;
    }

    method CommitLMovePush(left: bool, element: Str)
      requires Valid()
      modifies this
      ensures Valid() && list == Push(old(list), left, [element])
      ensures sound == (old(sound) && Small(list))
    {
      serializedLength := serializedLength + 4 + |element|;
      sound := sound && serializedLength <= MAX_OBJECT_SIZE;
      if left {
        SizedLengthConcat([element], list);
        list := [element] + list;
      } else {
        SizedLengthConcat(list, [element]);
        list := list + [element];
      }
    }

    method ExecuteBlockPop(left: bool, count: nat) returns (state: State, elements: seq<Str>)
      ensures left ==> elements + PopLeft(list, count) == list
      ensures !left ==> PopRight(list, count) + Reverse(elements) == list
      ensures state == Verdict(list, if left then PopLeft(list, count) else PopRight(list, count))
    {
      elements := [];
      if list == [] {
        return NoChange, [];
      }
      var cnt := Min(count, |list|);
      var i := 0;
      if left {
        while i < cnt
          invariant 0 <= i <= cnt && elements == list[..i]
        {
          elements := elements + [list[i]];
          i := i + 1;
        }
      } else {
        while i < cnt
          invariant 0 <= i <= cnt && Reverse(elements) == list[|list| - i..]
        {
          ReverseConcat(elements, [list[|list| - 1 - i]]);
          elements := elements + [list[|list| - 1 - i]];
          i := i + 1;
        }
      }
      state := if cnt == 0 then NoChange else if cnt >= |list| then ModifiedToEmpty else Modified;
    }

    /** Unlike the other pops this one returns true when the list is NOT empty afterwards. */
    method CommitBlockPop(left: bool, count: nat) returns (notEmpty: bool)
      requires Valid() && list != []
      modifies this
      ensures Valid() && list == (if left then PopLeft(old(list), count) else PopRight(old(list), count))
      ensures notEmpty == (list != []) && sound == (old(sound) && Small(list))
    {
      var cnt := |list|;
      if cnt > count {
        cnt := count;
      }
      for i := 0 to cnt
        invariant Valid() && sound == old(sound)
        invariant list == if left then old(list)[i..] else old(list)[..|old(list)| - i]
      {
        var _ := CommitLMovePop(left);
      }
      sound := sound && serializedLength <= MAX_OBJECT_SIZE;
      notEmpty := list != [];
    }

    // ---- LTRIM ------------------------------------------------------------------------------------

    method ExecuteLTrim(start0: int, end0: int) returns (state: State, ret: int, start: int, end: int)
      requires list != []
      ensures (start, end) == NormalizeTrim(|list|, start0, end0)
      ensures state == Verdict(list, Trim(list, start0, end0)) && ret == |Trim(list, start0, end0)|
    {
      start, end := NormalizeRange(start0, end0);
      var remaining := end - start + 1;
      if remaining <= 0 {
        return ModifiedToEmpty, 0, start, end;
      }
      if remaining >= |list| {
        assert start == 0 && end == |list| - 1;
        return NoChange, |list|, start, end;
      }
      return Modified, remaining, start, end;
    }

    method NormalizeRange(start0: int, end0: int) returns (start: int, end: int)
      ensures (start, end) == NormalizeTrim(|list|, start0, end0)
    {
      start, end := start0, end0;
      if start < 0 {
        start := |list| + start;
        if start < 0 {
          start := 0;
        }
      } else if start > |list| {
        start := |list|;
      }
      if end < 0 {
        end := |list| + end;
        if end < 0 {
          start := 1;
          end := 0;
        }
      } else if end >= |list| {
        end := |list| - 1;
      }
    }

    method CommitLTrim(start0: int, end0: int) returns (empty: bool)
      requires Valid()
      modifies this
      ensures Valid() && list == Trim(old(list), start0, end0) && empty == (list == [])
      ensures sound == (old(sound) && Small(list))
    {
      var start, end := NormalizeRange(start0, end0);
      if end - start + 1 <= 0 {
        DropTail(0);
        sound := sound && serializedLength <= MAX_OBJECT_SIZE;
        return true;
      }
      if end + 1 < |list| {
        DropTail(end + 1);
      }
      if start > 0 {
        DropHead(start);
      }
      sound := sound && serializedLength <= MAX_OBJECT_SIZE;
      empty := list == [];
    }

    // ---- LINSERT, LSET -----------------------------------------------------------------------------

    method ExecuteLInsert(pivot: Str, element: Str) returns (state: State, code: Code, ret: int)
      requires Valid()
      ensures code == Nil <==> pivot !in list
      ensures pivot in list ==> (code == Ok <==> EncodedLength(list) + 4 + |element| <= MAX_OBJECT_SIZE)
      ensures code == Ok ==> state == Modified && ret == |list| + 1
      ensures code != Ok ==> state == NoChange && ret == -1
    {
      for i := 0 to |list|
        invariant pivot !in list[..i]
      {
        if list[i] == pivot {
          if serializedLength + 4 + |element| > MAX_OBJECT_SIZE {
            return NoChange, TooBig, -1;
          }
          return Modified, Ok, |list| + 1;
        }
      }
      return NoChange, Nil, -1;
    }

    method CommitLInsert(before: bool, pivot: Str, element: Str)
      requires Valid()
      modifies this
      ensures Valid() && list == Insert(old(list), before, pivot, element)
      ensures sound == (old(sound) && Small(list))
    {
      var at := 0;
      while at < |list|
        invariant 0 <= at <= |list| && pivot !in list[..at]
      {
        if list[at] == pivot {
          FirstIs(list, pivot, at);
          if !before {
            at := at + 1;
          }
          break;
        }
        at := at + 1;
      }
      assert at == |list| && pivot !in list ==> FindFirst(list, pivot) == |list| by {
        if pivot !in list {
          FirstIs(list, pivot, |list|);
        }
      }
      serializedLength := serializedLength + 4 + |element|;
      sound := sound && serializedLength <= MAX_OBJECT_SIZE;
      SizedLengthConcat(list[..at], [element]);
      SizedLengthConcat(list[..at] + [element], list[at..]);
      SizedLengthConcat(list[..at], list[at..]);
      assert list[..at] + list[at..] == list;
      list := list[..at] + [element] + list[at..];
    }

    method ExecuteLSet(index0: int, element: Str) returns (state: State, code: Code, ret: int, index: int)
      requires Valid()
      ensures index == ConvertIndex(|list|, index0)
      ensures code == IndexOutOfRange <==> index >= |list|
      ensures index < |list| ==> (code == Ok <==> EncodedLength(list[index := element]) <= MAX_OBJECT_SIZE)
      ensures code == Ok ==> state == Modified && ret == 1
      ensures code != Ok ==> state == NoChange && ret == 0
    {
      index := ConvertIndex(|list|, index0);
      if 0 <= index < |list| {
        SizedUpdate(list, index, element);
        if serializedLength - |list[index]| + |element| > MAX_OBJECT_SIZE {
          return NoChange, TooBig, 0, index;
        }
        return Modified, Ok, 1, index;
      }
      return NoChange, IndexOutOfRange, 0, index;
    }

    method CommitLSet(index0: int, element: Str)
      requires Valid() && ConvertIndex(|list|, index0) < |list|
      modifies this
      ensures Valid() && list == old(list)[ConvertIndex(|old(list)|, index0) := element]
      ensures sound == (old(sound) && Small(list))
    {
      var index := ConvertIndex(|list|, index0);
      SizedUpdate(list, index, element);
      serializedLength := serializedLength - |list[index]| + |element|;
      sound := sound && serializedLength <= MAX_OBJECT_SIZE;
      list := list[index := element];
    }

    // ---- LREM ---------------------------------------------------------------------------------------

    method ExecuteLRem(count: int, element: Str) returns (state: State, ret: int)
      ensures ret == Min(if count == 0 then |list| else Abs(count), Count(list, element))
      ensures state == Verdict(list, LRem(list, count, element))
    {
      var limit := if count == 0 then |list| else Abs(count);
      if count < 0 {
        ret := CountBackward(limit, element);
      } else {
        ret := CountForward(limit, count == 0, element);
      }
      CountBound(list, element);
      RemoveNLength(list, element, count < 0, limit);
      state := if ret == 0 then NoChange else if ret >= |list| then ModifiedToEmpty else Modified;
    }

    method CountBackward(limit: nat, element: Str) returns (n: nat)
      ensures n == Min(limit, Count(list, element))
    {
      n := 0;
      var i := |list|;
      while i > 0 && n < limit
        invariant 0 <= i <= |list| && n == Count(list[i..], element) && n <= limit
      {
        i := i - 1;
        assert list[i..] == [list[i]] + list[i + 1..];
        if list[i] == element {
          n := n + 1;
        }
      }
      CountConcat(list[..i], list[i..], element);
      assert list[..i] + list[i..] == list;
    }

    method CountForward(limit: nat, unlimited: bool, element: Str) returns (n: nat)
      ensures n == if unlimited then Count(list, element) else Min(limit, Count(list, element))
    {
      n := 0;
      var i := 0;
      while i < |list| && (unlimited || n < limit)
        invariant 0 <= i <= |list| && n == Count(list[..i], element) && (unlimited || n <= limit)
      {
        CountConcat(list[..i], [list[i]], element);
        assert list[..i + 1] == list[..i] + [list[i]];
        if list[i] == element {
          n := n + 1;
        }
        i := i + 1;
      }
      CountConcat(list[..i], list[i..], element);
      assert list[..i] + list[i..] == list;
    }

    /** Walks the list once, erasing at the cursor; the counter is a 32-bit int in the source. */
    method CommitLRem(count: int, element: Str) returns (empty: bool)
      requires Valid()
      modifies this
      ensures Valid() && list == LRemCommitted(old(list), count, element) && empty == (list == [])
      ensures sound == old(sound)
    {
      var limit := Int32(Abs(count));
      if count < 0 {
        RemoveBackward(limit, element);
      } else if count > 0 {
        RemoveForward(limit, element);
      } else {
        RemoveForward(|list|, element);
      }
      empty := list == [];
    }

    method RemoveForward(limit: int, element: Str)
      requires Valid()
      modifies this
      ensures Valid() && list == RemoveFirst(old(list), element, if limit < 0 then 0 else limit)
      ensures sound == old(sound)
    {
      ghost var k0 := if limit < 0 then 0 else limit;
      var i, removed := 0, 0;
      while i < |list| && removed < limit
        invariant 0 <= i <= |list| && 0 <= removed <= k0 && Valid() && sound == old(sound)
        invariant RemoveFirst(old(list), element, k0) == list[..i] + RemoveFirst(list[i..], element, k0 - removed)
        decreases |list| - i
      {
        ghost var rest := list[i..];
        assert rest[1..] == list[i + 1..];
        if list[i] == element {
          EraseAt(i);
          assert list[i..] == rest[1..];
          removed := removed + 1;
        } else {
          assert list[..i + 1] + RemoveFirst(rest[1..], element, k0 - removed)
              == list[..i] + ([rest[0]] + RemoveFirst(rest[1..], element, k0 - removed));
          i := i + 1;
        }
      }
      assert list[..i] + list[i..] == list;
    }

    method RemoveBackward(limit: int, element: Str)
      requires Valid()
      modifies this
      ensures Valid() && sound == old(sound)
      ensures list == Reverse(RemoveFirst(Reverse(old(list)), element, if limit < 0 then 0 else limit))
    {
      hide Reverse, RemoveFirst, SizedLength;
      ghost var k0 := if limit < 0 then 0 else limit;
      var i, removed := |list|, 0;
      assert list[..i] == list && list[i..] == [];
      while i > 0 && removed < limit
        invariant 0 <= i <= |list| && 0 <= removed <= k0 && Valid() && sound == old(sound)
        invariant Reverse(RemoveFirst(Reverse(old(list)), element, k0))
               == Reverse(RemoveFirst(Reverse(list[..i]), element, k0 - removed)) + list[i..]
        decreases i
      {
        ghost var before, k := list, k0 - removed;
        i := i - 1;
        BackwardStep(list[..i + 1], element, k);
        assert list[..i + 1][..i] == list[..i];
        if list[i] == element {
          EraseAt(i);
          assert list[..i] == before[..i] && list[i..] == before[i + 1..];
          removed := removed + 1;
        } else {
          ghost var done := Reverse(RemoveFirst(Reverse(list[..i]), element, k));
          assert done + [list[i]] + list[i + 1..] == done + list[i..];
        }
      }
      BackwardEnd(list, i, element, k0 - removed);
    }

    method EraseAt(i: nat)
      requires Valid() && i < |list|
      modifies this
      ensures Valid() && list == old(list)[..i] + old(list)[i + 1..] && sound == old(sound)
    {
      SizedLengthConcat(list[..i], list[i..]);
      SizedLengthConcat(list[..i], list[i + 1..]);
      assert list[..i] + list[i..] == list;
      assert list[i..][1..] == list[i + 1..];
      serializedLength := serializedLength - (4 + |list[i]|);
      list := list[..i] + list[i + 1..];
    }

    // ---- the codec ----------------------------------------------------------------------------

    /** Serialize, for plain lists and for lists with an expiry time: exactly as long as announced. */
    method Serialize(ttl: Ttl) returns (out: Str)
      requires Valid()
      ensures out == StringsBytes(LIST, ttl, list)
      ensures |out| == serializedLength + ttl.Size()
    {
      out := Header(LIST, ttl);
      out := out + LE(4, |list|);
      out := AppendStrings(out, list);
      assert out == StringsBytes(LIST, ttl, list);
      StringsBytesLength(LIST, ttl, list);
    }

    /** Deserialize undoes Serialize, wherever in a buffer the bytes are. */
    method Deserialize(buf: Str, offset0: nat, timed: bool, ghost ttl0: Ttl, ghost l: seq<Str>)
      returns (ttl: Ttl, offset: nat)
      requires Fits32(l) && ttl0.Valid() && timed == ttl0.Until?
      requires Holds(buf, offset0, StringsBytes(LIST, ttl0, l))
      modifies this
      ensures Valid() && list == l && ttl == ttl0
      ensures offset == offset0 + |StringsBytes(LIST, ttl0, l)|
    {
      hide AllSized, Sized;
      list := [];
      serializedLength := 5;
      StringsBytesLength(LIST, ttl0, l);
      AllSizedLength(l);
      var cnt;
      ttl, cnt, offset := ReadPreamble(buf, offset0, timed, LIST, ttl0, |l|, AllSized(l));
      ghost var start := offset;
      for i := 0 to cnt
        invariant serializedLength == 5 + SizedLength(l[..i]) && list == l[..i]
        invariant offset == start + SizedLength(l[..i]) <= |buf|
        invariant Holds(buf, offset, AllSized(l[i..]))
      {
        FirstItem(buf, offset, l, i);
        SizedSnoc(l, i);
        var s;
        s, offset := ReadSized(buf, offset, l[i]);
        serializedLength := serializedLength + 4 + |s|;
        list := list + [s];
        assert l[..i] + [l[i]] == l[..i + 1];
      }
      assert l[..cnt] == l;
    }
  }

  lemma SizedUpdate(l: seq<Str>, i: nat, x: Str)
    requires i < |l|
    ensures SizedLength(l[i := x]) == SizedLength(l) - |l[i]| + |x|
  {
    var a, b := l[..i], l[i + 1..];
    assert l == a + ([l[i]] + b) && l[i := x] == a + ([x] + b);
    SizedLengthConcat(a, [l[i]] + b);
    SizedLengthConcat(a, [x] + b);
    assert ([l[i]] + b)[1..] == b && ([x] + b)[1..] == b;
  }

  lemma PushFrontStart(elements: seq<Str>, base: seq<Str>)
    ensures base == Reverse(elements[..0]) + base
  {
  }

  lemma PushFrontStep(elements: seq<Str>, i: nat, l: seq<Str>, base: seq<Str>)
    requires i < |elements| && l == Reverse(elements[..i]) + base
    ensures [elements[i]] + l == Reverse(elements[..i + 1]) + base
    ensures EncodedLength([elements[i]] + l) == EncodedLength(l) + 4 + |elements[i]|
  {
    ReverseSnoc(elements, i);
    assert ([elements[i]] + l)[1..] == l;
  }

  lemma ReverseSnoc(l: seq<Str>, i: nat)
    requires i < |l|
    ensures Reverse(l[..i + 1]) == [l[i]] + Reverse(l[..i])
  {
    ReverseConcat(l[..i], [l[i]]);
    assert l[..i + 1] == l[..i] + [l[i]];
    assert Reverse([l[i]]) == [l[i]];
  }

  lemma FirstIs(l: seq<Str>, x: Str, i: nat)
    requires i <= |l| && x !in l[..i] && (i < |l| ==> l[i] == x)
    ensures FindFirst(l, x) == i
  {
  }

  lemma BackwardEnd(l: seq<Str>, i: nat, x: Str, k: nat)
    requires i <= |l| && (i == 0 || k == 0)
    ensures Reverse(RemoveFirst(Reverse(l[..i]), x, k)) + l[i..] == l
  {
    ReverseTwice(l[..i]);
    assert l[..i] + l[i..] == l;
  }

  /** Taking the last element off a list, seen through the reversed list. */
  lemma BackwardStep(l: seq<Str>, x: Str, k: nat)
    requires l != [] && k > 0
    ensures var init, last := l[..|l| - 1], l[|l| - 1];
            Reverse(RemoveFirst(Reverse(l), x, k)) ==
            if last == x then Reverse(RemoveFirst(Reverse(init), x, k - 1))
            else Reverse(RemoveFirst(Reverse(init), x, k)) + [last]
  {
    var init, last := l[..|l| - 1], l[|l| - 1];
    assert l == init + [last];
    ReverseConcat(init, [last]);
    assert Reverse([last]) == [last];
    var r := Reverse(l);
    assert r[0] == last && r[1..] == Reverse(init);
  }
}
