/** Whole runs of list commands: what the primary does, what a replica rebuilds from the log, and how large
    the object can get. */
module ListRuns {
  import opened Bytes
  import opened Objects
  import opened ListSpec
  import opened ListObject

  datatype Cmd =
    | RPush(elements: seq<Str>)
    | LPush(elements: seq<Str>)
    | RPushX(elements: seq<Str>)
    | LPushX(elements: seq<Str>)
    | LPop(count: int)
    | RPop(count: int)
    | LMovePop(left: bool)
    | LMovePush(left: bool, element: Str)
    | BlockPop(left: bool, max: nat)
    | LTrim(start: int, end: int)
    | LInsert(before: bool, pivot: Str, element: Str)
    | LSet(index: int, element: Str)
    | LRem(count: int, element: Str)

  /** What the command parser lets through: a pop count is -1 (absent) or non-negative. */
  predicate WellFormed(cmd: Cmd) {
    match cmd
    case LPop(n) => n >= -1
    case RPop(n) => n >= -1
    case _ => true
  }

  /** Commands that create the key when it does not exist; all others do not run on a missing key. */
  predicate Creates(cmd: Cmd) { cmd.RPush? || cmd.LPush? || cmd.LMovePush? }

  /** A missing key is the empty list: an object is deleted as soon as it is empty. */
  predicate Runs(l: seq<Str>, cmd: Cmd) { WellFormed(cmd) && (l != [] || Creates(cmd)) }

  function PopCount(n: int): int { if n == -1 then 1 else n }

  /** The Execute half: does the command go ahead? */
  predicate Accepts(l: seq<Str>, cmd: Cmd)
    requires Runs(l, cmd)
  {
    match cmd
    case RPush(es) => EncodedLength(l + es) <= MAX_OBJECT_SIZE
    case LPush(es) => EncodedLength(l + es) <= MAX_OBJECT_SIZE
    case RPushX(es) => EncodedLength(l + es) <= MAX_OBJECT_SIZE
    case LPushX(es) => EncodedLength(l + es) <= MAX_OBJECT_SIZE
    case LPop(n) => n != 0
    case RPop(n) => n != 0
    case LMovePop(left) => true
    case LMovePush(left, x) => EncodedLength(l) + |x| <= MAX_OBJECT_SIZE
    case BlockPop(left, n) => n != 0
    case LTrim(s, e) => Trim(l, s, e) != l
    case LInsert(before, p, x) => p in l && EncodedLength(l) + 4 + |x| <= MAX_OBJECT_SIZE
    case LSet(i, x) => ConvertIndex(|l|, i) < |l| && EncodedLength(l[ConvertIndex(|l|, i) := x]) <= MAX_OBJECT_SIZE
    case LRem(n, x) => x in l
  }

  /** The Execute half: the arguments as it leaves them for the commit on the primary. */
  function Normalised(l: seq<Str>, cmd: Cmd): Cmd {
    match cmd
    case LTrim(s, e) => var (s', e') := NormalizeTrim(|l|, s, e); LTrim(s', e')
    case LSet(i, x) => LSet(ConvertIndex(|l|, i), x)
    case _ => cmd
  }

  /** The Commit half. */
  function Apply(l: seq<Str>, cmd: Cmd): seq<Str>
    requires Runs(l, cmd) && (cmd.LSet? ==> ConvertIndex(|l|, cmd.index) < |l|)
  {
    match cmd
    case RPush(es) => Push(l, false, es)
    case LPush(es) => Push(l, true, es)
    case RPushX(es) => Push(l, false, es)
    case LPushX(es) => Push(l, true, es)
    case LPop(n) => PopLeft(l, PopCount(n))
    case RPop(n) => PopRight(l, PopCount(n))
    case LMovePop(left) => if left then PopLeft(l, 1) else PopRight(l, 1)
    case LMovePush(left, x) => Push(l, left, [x])
    case BlockPop(left, n) => if left then PopLeft(l, n) else PopRight(l, n)
    case LTrim(s, e) => Trim(l, s, e)
    case LInsert(before, p, x) => Insert(l, before, p, x)
    case LSet(i, x) => l[ConvertIndex(|l|, i) := x]
    case LRem(n, x) => LRemCommitted(l, n, x)
  }

  /** The verdict Execute returns. */
  function Foreseen(l: seq<Str>, cmd: Cmd): State
    requires Runs(l, cmd)
  {
    if !Accepts(l, cmd) then NoChange
    else
      match cmd
      case LPop(_) => Verdict(l, Apply(l, cmd))
      case RPop(_) => Verdict(l, Apply(l, cmd))
      case LMovePop(_) => Verdict(l, Apply(l, cmd))
      case BlockPop(_, _) => Verdict(l, Apply(l, cmd))
      case LTrim(_, _) => Verdict(l, Apply(l, cmd))
      case LRem(n, x) => Verdict(l, ListSpec.LRem(l, n, x))
      case _ => Modified
  }

  // ---- the object does what the functions say ---------------------------------------------------

  /** ExecuteOn: dispatch a command to the object without changing it. */
  method ExecuteOn(obj: RedisListObject, cmd: Cmd) returns (state: State, cmd': Cmd)
    requires obj.Valid() && Runs(obj.list, cmd)
    ensures state == Foreseen(obj.list, cmd)
    ensures cmd' == Normalised(obj.list, cmd)
  {
    cmd' := cmd;
    match cmd {
      case RPush(es) => var s, _, _ := obj.ExecutePush(es); state := s;
      case LPush(es) => var s, _, _ := obj.ExecutePush(es); state := s;
      case RPushX(es) => var s, _, _ := obj.ExecutePush(es); state := s;
      case LPushX(es) => var s, _, _ := obj.ExecutePush(es); state := s;
      case LPop(n) => var s, _, _ := obj.ExecuteLPop(n); state := s;
      case RPop(n) => var s, _, _ := obj.ExecuteRPop(n); state := s;
      case LMovePop(left) => var s, _, _ := obj.ExecuteLMovePop(left); state := s;
      case LMovePush(left, x) => var s, _, _ := obj.ExecuteLMovePush(x); state := s;
      case BlockPop(left, n) => var s, _ := obj.ExecuteBlockPop(left, n); state := s;
      case LTrim(b, e) => var s, _, b', e' := obj.ExecuteLTrim(b, e); state, cmd' := s, LTrim(b', e');
      case LInsert(_, p, x) => var s, _, _ := obj.ExecuteLInsert(p, x); state := s;
      case LSet(i, x) => var s, _, _, i' := obj.ExecuteLSet(i, x); state, cmd' := s, LSet(i', x);
      case LRem(n, x) =>
        var s, _ := obj.ExecuteLRem(n, x);
        state := s;
        NothingRemovedIff(obj.list, n, x);
    }
  }

  lemma NothingRemovedIff(l: seq<Str>, n: int, x: Str)
    ensures x in l <==> ListSpec.LRem(l, n, x) != l
  {
    var k := if n == 0 then |l| else Abs(n);
    RemoveNLength(l, x, n < 0, k);
    CountZeroIff(l, x);
    CountBound(l, x);
  }

  lemma {:induction false} CountZeroIff(l: seq<Str>, x: Str)
    ensures Count(l, x) == 0 <==> x !in l
  {
    if l != [] {
      CountZeroIff(l[1..], x);
      assert l == [l[0]] + l[1..];
    }
  }

  /** What CommitOn needs: the command runs, and LSET's index is inside the list. */
  predicate Committable(l: seq<Str>, cmd: Cmd) {
    Runs(l, cmd) && (cmd.LSet? ==> ConvertIndex(|l|, cmd.index) < |l|)
  }

  /** The size assertions that the commit comes to hold.  A push asserts after every element, and the last one
      asserts the most; LMOVE's pop and LREM assert nothing. */
  predicate SizeAsserted(l: seq<Str>, cmd: Cmd)
    requires Committable(l, cmd)
  {
    cmd.LMovePop? || cmd.LRem? || (IsPush(cmd) && cmd.elements == []) || Small(Apply(l, cmd))
  }

  /** CommitOn: dispatch a command to the object's Commit method. */
  method CommitOn(obj: RedisListObject, cmd: Cmd)
    requires obj.Valid() && Committable(obj.list, cmd)
    modifies obj
    ensures obj.Valid() && obj.list == Apply(old(obj.list), cmd)
    ensures obj.sound == (old(obj.sound) && SizeAsserted(old(obj.list), cmd))
  {
    match cmd {
      case RPush(es) => obj.CommitRPush(es);
      case LPush(es) => obj.CommitLPush(es);
      case RPushX(es) => obj.CommitRPush(es);
      case LPushX(es) => obj.CommitLPush(es);
      case LPop(n) => var _ := obj.CommitLPop(PopCount(n));
      case RPop(n) => var _ := obj.CommitRPop(PopCount(n));
      case LMovePop(left) => var _ := obj.CommitLMovePop(left);
      case LMovePush(left, x) => obj.CommitLMovePush(left, x);
      case BlockPop(left, n) => var _ := obj.CommitBlockPop(left, n);
      case LTrim(b, e) => var _ := obj.CommitLTrim(b, e);
      case LInsert(before, p, x) => obj.CommitLInsert(before, p, x);
      case LSet(i, x) => obj.CommitLSet(i, x);
      case LRem(n, x) => var _ := obj.CommitLRem(n, x);
    }
  }

  // ---- verdicts ---------------------------------------------------------------------------------

  /** LREM is announced as emptying the list, and its 32-bit counter stops before the last element. */
  predicate Misleads(l: seq<Str>, cmd: Cmd) {
    && cmd.LRem?
    && Count(l, cmd.element) == |l|
    && (cmd.count == 0 || |l| <= Abs(cmd.count))
    && CommitLimit(l, cmd.count) < |l|
  }

  predicate IsPush(cmd: Cmd) { cmd.RPush? || cmd.LPush? || cmd.RPushX? || cmd.LPushX? }

  /** Execute's verdict is what Commit then does: ModifiedToEmpty exactly when the committed list is empty.  The one
      exception is an LREM whose counter stops short. */
  lemma VerdictIsTruthIff(l: seq<Str>, cmd: Cmd)
    requires Runs(l, cmd) && (IsPush(cmd) ==> cmd.elements != [])
    requires Foreseen(l, cmd) != NoChange
    ensures Committable(l, cmd)
    ensures (Foreseen(l, cmd) == ModifiedToEmpty <==> Apply(l, cmd) == []) <==> !Misleads(l, cmd)
  {
    if cmd.LRem? {
      var k := if cmd.count == 0 then |l| else Abs(cmd.count);
      RemoveNLength(l, cmd.element, cmd.count < 0, k);
      RemoveNLength(l, cmd.element, cmd.count < 0, CommitLimit(l, cmd.count));
      CountBound(l, cmd.element);
    }
  }

  /** Without the bound the verdict can be wrong: LREM with a count of 2^31 is announced as emptying the list
      and then removes nothing. */
  lemma VerdictCanMislead()
    ensures var cmd := LRem(0x8000_0000, [1]);
            && Runs([[1]], cmd) && Misleads([[1]], cmd)
            && Foreseen([[1]], cmd) == ModifiedToEmpty && Apply([[1]], cmd) == [[1]]
  {
    LRemTruncationWitness();
    assert [1] in [[1]];
  }

  // ---- replicas -----------------------------------------------------------------------------------

  /** Committing the rewritten arguments is committing the arguments the client sent. */
  lemma CommitIgnoresNormalisation(l: seq<Str>, cmd: Cmd)
    requires Runs(l, cmd) && Accepts(l, cmd)
    ensures Committable(l, cmd) && Committable(l, Normalised(l, cmd))
    ensures Apply(l, Normalised(l, cmd)) == Apply(l, cmd)
  {
    if cmd.LTrim? {
      TrimIdempotent(|l|, cmd.start, cmd.end);
    }
  }

  /** One command on the primary. */
  function Step(l: seq<Str>, cmd: Cmd): seq<Str> {
    if Runs(l, cmd) && Accepts(l, cmd) then
      CommitIgnoresNormalisation(l, cmd);
      Apply(l, Normalised(l, cmd))
    else l
  }

  function Primary(l: seq<Str>, cmds: seq<Cmd>): seq<Str>
    decreases |cmds|
  {
    if cmds == [] then l else Primary(Step(l, cmds[0]), cmds[1..])
  }

  /** The accepted commands, as the client sent them. */
  function Log(l: seq<Str>, cmds: seq<Cmd>): seq<Cmd>
    decreases |cmds|
  {
    if cmds == [] then []
    else (if Runs(l, cmds[0]) && Accepts(l, cmds[0]) then [cmds[0]] else []) + Log(Step(l, cmds[0]), cmds[1..])
  }

  lemma AcceptedIffForeseen(l: seq<Str>, cmd: Cmd)
    requires Runs(l, cmd)
    ensures Accepts(l, cmd) <==> Foreseen(l, cmd) != NoChange
  {
    if cmd.LRem? {
      NothingRemovedIff(l, cmd.count, cmd.element);
    }
  }

  /** No accepted LMOVE push goes over the limit: its size test would have passed with the header counted. */
  predicate NoOvershoot(l: seq<Str>, cmds: seq<Cmd>)
    decreases |cmds|
  {
    cmds == [] || (
      && (cmds[0].LMovePush? && Accepts(l, cmds[0]) ==> EncodedLength(l) + 4 + |cmds[0].element| <= MAX_OBJECT_SIZE)
      && NoOvershoot(Step(l, cmds[0]), cmds[1..]))
  }

  /** A run on the object itself: the cached length stays exact throughout, and the size assertions of all its
      commits hold exactly when no LMOVE push overshoots. */
  method RunPrimary(obj: RedisListObject, cmds: seq<Cmd>)
    requires obj.Valid()
    modifies obj
    ensures obj.Valid() && obj.list == Primary(old(obj.list), cmds)
    ensures EncodedLength(old(obj.list)) <= MAX_OBJECT_SIZE + 4 ==>
              obj.sound == (old(obj.sound) && NoOvershoot(old(obj.list), cmds))
  {
    hide Step, Accepts, EncodedLength;
    ghost var bounded := EncodedLength(obj.list) <= MAX_OBJECT_SIZE + 4;
    for i := 0 to |cmds|
      invariant obj.Valid() && Primary(obj.list, cmds[i..]) == Primary(old(obj.list), cmds)
      invariant bounded ==> EncodedLength(obj.list) <= MAX_OBJECT_SIZE + 4
      invariant bounded ==>
        ((old(obj.sound) && NoOvershoot(old(obj.list), cmds)) <==> (obj.sound && NoOvershoot(obj.list, cmds[i..])))
    {
      assert cmds[i..][1..] == cmds[i + 1..];
      RunStep(obj, cmds[i]);
    }
    assert cmds[|cmds|..] == [];
  }

  /** One command of the run. */
  method RunStep(obj: RedisListObject, cmd: Cmd)
    requires obj.Valid()
    modifies obj
    ensures obj.Valid() && obj.list == Step(old(obj.list), cmd)
    ensures EncodedLength(old(obj.list)) <= MAX_OBJECT_SIZE + 4 ==>
      && EncodedLength(obj.list) <= MAX_OBJECT_SIZE + 4
      && obj.sound ==
         (old(obj.sound) && (cmd.LMovePush? && Accepts(old(obj.list), cmd) ==>
                               EncodedLength(old(obj.list)) + 4 + |cmd.element| <= MAX_OBJECT_SIZE))
  {
    hide Apply, Accepts, Foreseen, EncodedLength;
    if Runs(obj.list, cmd) {
      var state, cmd' := ExecuteOn(obj, cmd);
      AcceptedIffForeseen(obj.list, cmd);
      if state != NoChange {
        CommitIgnoresNormalisation(obj.list, cmd);
        if EncodedLength(obj.list) <= MAX_OBJECT_SIZE + 4 {
          StepIsBounded(obj.list, cmd);
          AssertionsIff(obj.list, cmd);
        }
        SameAssertions(obj.list, cmd);
        CommitOn(obj, cmd');
      }
    }
  }

  /** Rewriting the arguments changes nothing about the assertions. */
  lemma SameAssertions(l: seq<Str>, cmd: Cmd)
    requires Runs(l, cmd) && Accepts(l, cmd)
    ensures Committable(l, cmd) && Committable(l, Normalised(l, cmd))
    ensures SizeAsserted(l, cmd) <==> SizeAsserted(l, Normalised(l, cmd))
  {
    CommitIgnoresNormalisation(l, cmd);
  }

  /** A replica: Commit only.  None if a commit meets an empty list or an index it asserts away or, where size
      assertions are compiled in, fails one of those. */
  function Replay(l: seq<Str>, log: seq<Cmd>, asserting: bool): Option<seq<Str>>
    decreases |log|
  {
    if log == [] then Some(l)
    else if Committable(l, log[0]) && (asserting ==> SizeAsserted(l, log[0])) then
      Replay(Apply(l, log[0]), log[1..], asserting)
    else None
  }

  /** Every replica that replays the log holds the primary's list. */
  lemma {:induction false} ReplicaAgrees(l: seq<Str>, cmds: seq<Cmd>)
    ensures Replay(l, Log(l, cmds), false) == Some(Primary(l, cmds))
    decreases |cmds|
  {
    if cmds != [] {
      ReplicaAgrees(Step(l, cmds[0]), cmds[1..]);
      LogStep(l, cmds);
    }
  }

  lemma LogStep(l: seq<Str>, cmds: seq<Cmd>)
    requires cmds != []
    ensures var cmd, rest := cmds[0], Log(Step(l, cmds[0]), cmds[1..]);
      if Runs(l, cmd) && Accepts(l, cmd)
      then Log(l, cmds) == [cmd] + rest && Committable(l, cmd) && Step(l, cmd) == Apply(l, cmd)
      else Log(l, cmds) == rest && Step(l, cmd) == l
  {
    if Runs(l, cmds[0]) && Accepts(l, cmds[0]) {
      CommitIgnoresNormalisation(l, cmds[0]);
    }
  }

  /** With the size assertions compiled in, the log replays to the end exactly when no LMOVE push overshot. */
  lemma {:induction false} AssertingReplicaIff(l: seq<Str>, cmds: seq<Cmd>)
    requires EncodedLength(l) <= MAX_OBJECT_SIZE + 4
    ensures Replay(l, Log(l, cmds), true) == if NoOvershoot(l, cmds) then Some(Primary(l, cmds)) else None
    decreases |cmds|
  {
    if cmds != [] {
      var cmd, l' := cmds[0], Step(l, cmds[0]);
      LogStep(l, cmds);
      if Runs(l, cmd) && Accepts(l, cmd) {
        StepIsBounded(l, cmd);
        AssertionsIff(l, cmd);
        AssertingReplicaIff(l', cmds[1..]);
        assert Log(l, cmds)[1..] == Log(l', cmds[1..]);
      } else {
        AssertingReplicaIff(l', cmds[1..]);
      }
    }
  }

  // ---- size -----------------------------------------------------------------------------------------

  lemma {:induction false} SizedReverse(l: seq<Str>)
    ensures SizedLength(Reverse(l)) == SizedLength(l)
  {
    if l != [] {
      SizedReverse(l[1..]);
      SizedLengthConcat(Reverse(l[1..]), [l[0]]);
    }
  }

  lemma {:induction false} SizedRemove(l: seq<Str>, x: Str, k: nat)
    ensures SizedLength(RemoveFirst(l, x, k)) <= SizedLength(l)
  {
    if l != [] && k > 0 {
      SizedRemove(l[1..], x, if l[0] == x then k - 1 else k);
      assert l[0] != x ==> RemoveFirst(l, x, k)[1..] == RemoveFirst(l[1..], x, k);
    }
  }

  lemma SizedSlice(l: seq<Str>, i: nat, j: nat)
    requires i <= j <= |l|
    ensures SizedLength(l[i..j]) <= SizedLength(l)
  {
    hide SizedLength;
    var a, b, c := l[..i], l[i..j], l[j..];
    assert l == a + (b + c);
    SizedLengthConcat(a, b + c);
    SizedLengthConcat(b, c);
  }

  lemma PopsShrink(l: seq<Str>, n: nat)
    ensures SizedLength(PopLeft(l, n)) <= SizedLength(l) && SizedLength(PopRight(l, n)) <= SizedLength(l)
  {
    var k := Min(n, |l|);
    SizedSlice(l, k, |l|);
    SizedSlice(l, 0, |l| - k);
    assert l[k..|l|] == l[k..] && l[0..|l| - k] == l[..|l| - k];
  }

  predicate Grows(cmd: Cmd) { IsPush(cmd) || cmd.LMovePush? || cmd.LInsert? || cmd.LSet? }

  lemma ShrinksOtherwise(l: seq<Str>, cmd: Cmd)
    requires Committable(l, cmd) && !Grows(cmd)
    ensures EncodedLength(Apply(l, cmd)) <= EncodedLength(l)
  {
    match cmd {
      case LPop(n) => PopsShrink(l, PopCount(n));
      case RPop(n) => PopsShrink(l, PopCount(n));
      case LMovePop(_) => PopsShrink(l, 1);
      case BlockPop(_, n) => PopsShrink(l, n);
      case LTrim(s, e) =>
        TrimKeepsWindow(l, s, e);
        var (s', e') := NormalizeTrim(|l|, s, e);
        if e' - s' + 1 > 0 {
          SizedSlice(l, s', e' + 1);
        }
      case LRem(n, x) =>
        SizedRemove(l, x, CommitLimit(l, n));
        SizedRemove(Reverse(l), x, CommitLimit(l, n));
        SizedReverse(l);
        SizedReverse(RemoveFirst(Reverse(l), x, CommitLimit(l, n)));
    }
  }

  /** An accepted command that can grow the list leaves it within the limit, except that LMOVE's push may
      overshoot by the four bytes its test leaves out. */
  lemma GrowthIsBounded(l: seq<Str>, cmd: Cmd)
    requires Runs(l, cmd) && Accepts(l, cmd) && Grows(cmd)
    ensures Committable(l, cmd)
    ensures EncodedLength(Apply(l, cmd)) <= MAX_OBJECT_SIZE + (if cmd.LMovePush? then 4 else 0)
  {
    match cmd {
      case LInsert(before, p, x) =>
        var i := FindFirst(l, p);
        var at := if before || i == |l| then i else i + 1;
        SizedLengthConcat(l[..at], [x]);
        SizedLengthConcat(l[..at] + [x], l[at..]);
        SizedLengthConcat(l[..at], l[at..]);
        assert l[..at] + l[at..] == l;
      case LSet(i, x) =>
      case LMovePush(left, x) =>
        SizedLengthConcat([x], l);
        SizedLengthConcat(l, [x]);
        assert Reverse([x]) == [x];
      case _ =>
        SizedLengthConcat(l, cmd.elements);
        SizedLengthConcat(Reverse(cmd.elements), l);
        SizedReverse(cmd.elements);
    }
  }

  /** Taking at least one element off takes at least its four-byte header off. */
  lemma RemovalFreesFour(l: seq<Str>, cmd: Cmd)
    requires Runs(l, cmd) && Accepts(l, cmd) && !Grows(cmd) && !cmd.LMovePop? && !cmd.LRem?
    ensures EncodedLength(Apply(l, cmd)) + 4 <= EncodedLength(l)
  {
    match cmd {
      case LPop(n) => PopsFreeFour(l, PopCount(n));
      case RPop(n) => PopsFreeFour(l, PopCount(n));
      case BlockPop(_, n) => PopsFreeFour(l, n);
      case LTrim(s, e) =>
        TrimKeepsWindow(l, s, e);
        var (s', e') := NormalizeTrim(|l|, s, e);
        if e' - s' + 1 > 0 {
          SliceFreesFour(l, s', e' + 1);
        } else {
          SliceFreesFour(l, 0, 0);
        }
    }
  }

  lemma SliceFreesFour(l: seq<Str>, i: nat, j: nat)
    requires i <= j <= |l| && j - i < |l|
    ensures SizedLength(l[i..j]) + 4 <= SizedLength(l)
  {
    hide SizedLength;
    var a, b, c := l[..i], l[i..j], l[j..];
    assert l == a + (b + c);
    SizedLengthConcat(a, b + c);
    SizedLengthConcat(b, c);
    SizedBounds(a);
    SizedBounds(c);
  }

  lemma PopsFreeFour(l: seq<Str>, n: nat)
    requires n > 0 && l != []
    ensures SizedLength(PopLeft(l, n)) + 4 <= SizedLength(l) && SizedLength(PopRight(l, n)) + 4 <= SizedLength(l)
  {
    var k := Min(n, |l|);
    SliceFreesFour(l, k, |l|);
    SliceFreesFour(l, 0, |l| - k);
    assert l[k..|l|] == l[k..] && l[0..|l| - k] == l[..|l| - k];
  }

  /** On an accepted command the size assertions hold, except that an LMOVE push may overshoot. */
  lemma AssertionsIff(l: seq<Str>, cmd: Cmd)
    requires EncodedLength(l) <= MAX_OBJECT_SIZE + 4 && Runs(l, cmd) && Accepts(l, cmd)
    ensures Committable(l, cmd)
    ensures SizeAsserted(l, cmd) <==>
            (cmd.LMovePush? ==> EncodedLength(l) + 4 + |cmd.element| <= MAX_OBJECT_SIZE)
  {
    hide EncodedLength;
    if cmd.LMovePush? {
      LMovePushWithinIff(l, cmd.left, cmd.element);
    } else if Grows(cmd) {
      GrowthIsBounded(l, cmd);
    } else if !cmd.LMovePop? && !cmd.LRem? {
      RemovalFreesFour(l, cmd);
    }
  }

  lemma StepIsBounded(l: seq<Str>, cmd: Cmd)
    requires EncodedLength(l) <= MAX_OBJECT_SIZE + 4
    ensures EncodedLength(Step(l, cmd)) <= MAX_OBJECT_SIZE + 4
  {
    hide EncodedLength;
    if Runs(l, cmd) && Accepts(l, cmd) {
      CommitIgnoresNormalisation(l, cmd);
      if Grows(cmd) {
        GrowthIsBounded(l, cmd);
      } else {
        ShrinksOtherwise(l, cmd);
      }
    }
  }

  /** Over every run the encoding stays within MAX_OBJECT_SIZE + 4. */
  lemma {:induction false} RunIsBounded(l: seq<Str>, cmds: seq<Cmd>)
    requires EncodedLength(l) <= MAX_OBJECT_SIZE + 4
    ensures EncodedLength(Primary(l, cmds)) <= MAX_OBJECT_SIZE + 4
    decreases |cmds|
  {
    if cmds != [] {
      StepIsBounded(l, cmds[0]);
      RunIsBounded(Step(l, cmds[0]), cmds[1..]);
    }
  }

  /** LMOVE's push keeps the object within the limit exactly when its size test had counted the header. */
  lemma LMovePushWithinIff(l: seq<Str>, left: bool, x: Str)
    requires Accepts(l, LMovePush(left, x))
    ensures EncodedLength(Step(l, LMovePush(left, x))) <= MAX_OBJECT_SIZE <==>
            EncodedLength(l) + 4 + |x| <= MAX_OBJECT_SIZE
  {
    SizedLengthConcat([x], l);
    SizedLengthConcat(l, [x]);
    assert Reverse([x]) == [x];
  }

  /** The extra four bytes are reached by a run of one LMOVE push onto a missing key, and its assertion fails. */
  lemma BoundIsTight(x: Str)
    requires |x| == MAX_OBJECT_SIZE - 5
    ensures EncodedLength(Primary([], [LMovePush(false, x)])) == MAX_OBJECT_SIZE + 4
    ensures Replay([], Log([], [LMovePush(false, x)]), true) == None
  {
    var cmd := LMovePush(false, x);
    AssertingReplicaIff([], [cmd]);
    assert Accepts([], cmd);
    assert Step([], cmd) == [x];
    assert Primary([], [cmd]) == Primary([x], [cmd][1..]) == [x];
    assert SizedLength([x]) == 4 + |x| + SizedLength([x][1..]);
  }
}
