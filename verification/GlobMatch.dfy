/** The glob matcher behind KEYS, SCAN MATCH, PSUBSCRIBE and CONFIG GET (src/redis_string_match.cpp).

    A pattern is a token sequence: `*` stands for any substring, every other token for exactly one
    character.  `Fits` is the declarative meaning ("the string splits into pieces, one per token").
    `StringMatchImpl` is the recursive search with its shared "skip longer matches" flag; it is proved
    to decide `Fits` and the flag is proved to be raised only when no later start can match. */
module GlobMatch {
  import opened GlobSyntax

  predicate ItemAccepts(it: Item, c: Ch) {
    match it
    case Single(d) => c == d
    case Range(lo, hi) => lo <= c <= hi
  }

  predicate AnyItemAccepts(items: seq<Item>, c: Ch) {
    exists i :: 0 <= i < |items| && ItemAccepts(items[i], c)
  }

  predicate Accepts(t: Token, c: Ch)
    requires !t.Star?
  {
    match t
    case AnyOne => true
    case Lit(d) => c == d
    case Class(negated, items) => AnyItemAccepts(items, c) != negated
  }

  // ---- the declarative meaning ------------------------------------------------------------

  function Flatten(pieces: seq<seq<Ch>>): seq<Ch> {
    if pieces == [] then [] else pieces[0] + Flatten(pieces[1..])
  }

  predicate PieceFits(t: Token, piece: seq<Ch>) {
    t.Star? || (|piece| == 1 && Accepts(t, piece[0]))
  }

  ghost predicate IsSplit(ts: seq<Token>, s: seq<Ch>, pieces: seq<seq<Ch>>) {
    && |pieces| == |ts|
    && Flatten(pieces) == s
    && forall i :: 0 <= i < |ts| ==> PieceFits(ts[i], pieces[i])
  }

  /** Some way of cutting `s` into one piece per token gives every token a piece it accepts. */
  ghost predicate Fits(ts: seq<Token>, s: seq<Ch>) {
    exists pieces :: IsSplit(ts, s, pieces)
  }

  /** The same relation by recursion over the tokens, on the suffix of `s` at `i`. */
  ghost predicate FitsAt(ts: seq<Token>, s: seq<Ch>, i: int)
    decreases ts
  {
    && 0 <= i <= |s|
    && if ts == [] then i == |s|
       else if ts[0].Star? then exists j :: i <= j <= |s| && FitsAt(ts[1..], s, j)
       else i < |s| && Accepts(ts[0], s[i]) && FitsAt(ts[1..], s, i + 1)
  }

  lemma {:induction false} SplitToFitsAt(ts: seq<Token>, s: seq<Ch>, i: nat, pieces: seq<seq<Ch>>)
    requires i <= |s| && IsSplit(ts, s[i..], pieces)
    ensures FitsAt(ts, s, i)
    decreases ts
  {
    if ts != [] {
      var j := i + |pieces[0]|;
      assert s[i..] == pieces[0] + Flatten(pieces[1..]);
      assert s[j..] == s[i..][|pieces[0]|..] == Flatten(pieces[1..]);
      assert PieceFits(ts[0], pieces[0]);
      assert forall k :: 0 <= k < |ts[1..]| ==> PieceFits(ts[1..][k], pieces[1..][k]) by {
        forall k | 0 <= k < |ts[1..]| ensures PieceFits(ts[1..][k], pieces[1..][k]) {
          assert PieceFits(ts[k + 1], pieces[k + 1]);
        }
      }
      SplitToFitsAt(ts[1..], s, j, pieces[1..]);
    }
  }

  lemma {:induction false} FitsAtToSplit(ts: seq<Token>, s: seq<Ch>, i: nat) returns (pieces: seq<seq<Ch>>)
    requires FitsAt(ts, s, i)
    ensures IsSplit(ts, s[i..], pieces)
    decreases ts
  {
    if ts == [] {
      pieces := [];
    } else {
      var j := i + 1;
      if ts[0].Star? {
        j :| i <= j <= |s| && FitsAt(ts[1..], s, j);
      }
      var rest := FitsAtToSplit(ts[1..], s, j);
      pieces := [s[i..j]] + rest;
      assert pieces[1..] == rest;
      forall k | 0 <= k < |ts| ensures PieceFits(ts[k], pieces[k]) {
        if k > 0 {
          assert PieceFits(ts[1..][k - 1], rest[k - 1]);
        }
      }
    }
  }

  /** The recursive relation is the declarative one. */
  lemma FitsAtIffSplit(ts: seq<Token>, s: seq<Ch>)
    ensures FitsAt(ts, s, 0) <==> Fits(ts, s)
  {
    assert s[0..] == s;
    if FitsAt(ts, s, 0) {
      var pieces := FitsAtToSplit(ts, s, 0);
      assert IsSplit(ts, s, pieces);
    }
    if Fits(ts, s) {
      var pieces :| IsSplit(ts, s, pieces);
      SplitToFitsAt(ts, s, 0, pieces);
    }
  }

  // ---- the search -------------------------------------------------------------------------

  /** The bracket-class loop (lines 109-177): `i` is the position after the `[`. */
  method MatchClass(p: seq<Ch>, open: nat, c: Ch) returns (matched: bool, next: nat)
    requires open < |p| && p[open] == OPEN
    ensures next == TokenAt(p, open).1
    ensures matched <==> Accepts(TokenAt(p, open).0, c)
  {
    var i := open + 1;
    var negated := At(p, i) == CARET;
    if negated {
      i := i + 1;
    }
    ghost var body := ClassItems(p, i);
    var found := false;
    while true
      invariant open < i <= |p|
      invariant ClassItems(p, i).1 == body.1
      invariant AnyItemAccepts(body.0, c) <==> found || AnyItemAccepts(ClassItems(p, i).0, c)
      decreases |p| - i
    {
      ghost var items := ClassItems(p, i).0;
      if At(p, i) == BACKSLASH && |p| - i >= 2 {
        ConsAccepts(items, Single(p[i + 1]), ClassItems(p, i + 2).0, c);
        i := i + 1;
        if p[i] == c {
          found := true;
        }
      } else if At(p, i) == CLOSE {
        i := i + 1;
        break;
      } else if i == |p| {
        break;
      } else if |p| - i >= 3 && p[i + 1] == DASH {
        ConsAccepts(items, RangeOf(p[i], p[i + 2]), ClassItems(p, i + 3).0, c);
        var lo, hi := p[i], p[i + 2];
        if lo > hi {
          lo, hi := hi, lo;
        }
        i := i + 2;
        if lo <= c <= hi {
          found := true;
        }
      } else {
        ConsAccepts(items, Single(p[i]), ClassItems(p, i + 1).0, c);
        if p[i] == c {
          found := true;
        }
      }
      i := i + 1;
    }
    matched := if negated then !found else found;
    next := i;
  }

  lemma ConsAccepts(items: seq<Item>, it: Item, rest: seq<Item>, c: Ch)
    requires items == [it] + rest
    ensures AnyItemAccepts(items, c) <==> ItemAccepts(it, c) || AnyItemAccepts(rest, c)
  {
    assert items[0] == it;
    if AnyItemAccepts(rest, c) {
      var i :| 0 <= i < |rest| && ItemAccepts(rest[i], c);
      assert items[i + 1] == rest[i];
    }
  }

  predicate AllStars(p: seq<Ch>, i: nat)
    requires i <= |p|
  {
    forall k :: i <= k < |p| ==> p[k] == STAR
  }

  lemma {:induction false} AllStarsFit(p: seq<Ch>, i: nat, s: seq<Ch>, k: nat)
    requires i < |p| && AllStars(p, i) && k <= |s|
    ensures FitsAt(Tokens(p, i), s, k)
    decreases |p| - i
  {
    assert Tokens(p, i)[1..] == Tokens(p, i + 1);
    if i + 1 == |p| {
      assert FitsAt([], s, |s|);
    } else {
      AllStarsFit(p, i + 1, s, k);
    }
  }

  ghost predicate FitsLater(ts: seq<Token>, s: seq<Ch>, k: int) {
    exists j :: k <= j <= |s| && FitsAt(ts, s, j)
  }

  /** One unfolding of the relation at a pattern position. */
  lemma StarStep(p: seq<Ch>, i: nat, s: seq<Ch>, k: nat)
    requires i < |p| && p[i] == STAR && k <= |s|
    ensures FitsAt(Tokens(p, i), s, k) <==> FitsLater(Tokens(p, i + 1), s, k)
  {
    assert Tokens(p, i)[1..] == Tokens(p, i + 1);
  }

  lemma OneStep(p: seq<Ch>, i: nat, s: seq<Ch>, k: int)
    requires i < |p| && p[i] != STAR
    ensures FitsAt(Tokens(p, i), s, k) <==>
            0 <= k < |s| && Accepts(TokenAt(p, i).0, s[k]) && FitsAt(Tokens(p, TokenAt(p, i).1), s, k + 1)
  {
    assert Tokens(p, i)[1..] == Tokens(p, TokenAt(p, i).1);
  }

  /** A run of stars means what one star means. */
  lemma StarsCollapse(p: seq<Ch>, i: nat, s: seq<Ch>, k: nat)
    requires i + 1 < |p| && p[i] == STAR && p[i + 1] == STAR && k <= |s|
    ensures FitsAt(Tokens(p, i), s, k) <==> FitsAt(Tokens(p, i + 1), s, k)
  {
    StarStep(p, i, s, k);
    if FitsLater(Tokens(p, i + 1), s, k) {
      var j :| k <= j <= |s| && FitsAt(Tokens(p, i + 1), s, j);
      StarStep(p, i + 1, s, j);
      StarStep(p, i + 1, s, k);
    }
  }

  /** An exhausted string fits exactly an all-star remainder. */
  lemma {:induction false} EndFits(p: seq<Ch>, i: nat, s: seq<Ch>)
    requires i <= |p|
    ensures FitsAt(Tokens(p, i), s, |s|) <==> AllStars(p, i)
    decreases |p| - i
  {
    if i < |p| {
      var j := TokenAt(p, i).1;
      assert Tokens(p, i)[1..] == Tokens(p, j);
      EndFits(p, j, s);
      if p[i] == STAR {
        assert FitsAt(Tokens(p, i), s, |s|) <==> FitsAt(Tokens(p, j), s, |s|);
      }
    }
  }

  lemma PatternUsedUp(p: seq<Ch>, s: seq<Ch>, k: nat)
    ensures FitsAt(Tokens(p, |p|), s, k) <==> k == |s|
  {
    assert Tokens(p, |p|) == [];
  }

  /** No start position of `s` at or after `k` fits the pattern from `i` on. */
  ghost predicate NoLaterStart(p: seq<Ch>, i: nat, s: seq<Ch>, k: nat)
    requires i <= |p|
  {
    forall m :: k <= m <= |s| ==> !FitsAt(Tokens(p, i), s, m)
  }

  /** Everything but a star uses up one character (lines 101-206). */
  method MatchOne(p: seq<Ch>, i: nat, c: Ch) returns (ok: bool, next: nat)
    requires i < |p| && p[i] != STAR
    ensures next == TokenAt(p, i).1
    ensures ok <==> Accepts(TokenAt(p, i).0, c)
  {
    if p[i] == QUESTION {
      return true, i + 1;
    } else if p[i] == OPEN {
      ok, next := MatchClass(p, i, c);
    } else {
      next := i;
      if p[i] == BACKSLASH && |p| - i >= 2 {
        next := i + 1;
      }
      return p[next] == c, next + 1;
    }
  }

  /** The stars left over when the string has run out (lines 209-217). */
  method SkipStars(p: seq<Ch>, i0: nat) returns (i: nat)
    requires i0 <= |p|
    ensures i0 <= i <= |p|
    ensures i == |p| <==> AllStars(p, i0)
  {
    i := i0;
    while At(p, i) == STAR
      invariant i0 <= i <= |p|
      invariant AllStars(p, i0) <==> AllStars(p, i)
      decreases |p| - i
    {
      i := i + 1;
    }
  }

  /** The scan for a pattern of stars alone (lines 46-60). */
  method OnlyStars(p: seq<Ch>, i0: nat) returns (allStar: bool)
    requires i0 <= |p|
    ensures allStar <==> AllStars(p, i0)
  {
    allStar := true;
    for m := i0 to |p|
      invariant allStar <==> forall n :: i0 <= n < m ==> p[n] == STAR
    {
      if p[m] != STAR {
        allStar := false;
      }
    }
  }

  /** stringmatchlen_impl: match the pattern from `i0` against the string from `k0`.  The flag is down on
      entry: the only caller that loops stops as soon as it finds the flag up.  When it comes back up, the
      pattern fits no later start either, which is what entitles every enclosing star to give up. */
  method StringMatchImpl(p: seq<Ch>, i0: nat, s: seq<Ch>, k0: nat) returns (matched: bool, skip: bool)
    requires i0 <= |p| && k0 <= |s|
    ensures matched <==> i0 == |p| || FitsAt(Tokens(p, i0), s, k0)
    ensures skip ==> !matched && NoLaterStart(p, i0, s, k0)
    decreases |p| - i0, 1
  {
    hide FitsAt, Tokens, TokenAt;
    skip := false;
    var allStar := OnlyStars(p, i0);
    if allStar {
      if i0 < |p| {
        AllStarsFit(p, i0, s, k0);
      }
      return true, false;
    }
    EndFits(p, i0, s);
    var i, k := i0, k0;
    while i < |p| && k < |s|
      invariant i0 <= i <= |p| && k0 <= k <= |s|
      invariant !AllStars(p, i0) && (k == |s| ==> i == i0)
      invariant FitsAt(Tokens(p, i0), s, k0) <==> FitsAt(Tokens(p, i), s, k)
      invariant forall m :: k0 <= m <= |s| && FitsAt(Tokens(p, i0), s, m) ==>
        m + (k - k0) <= |s| && FitsAt(Tokens(p, i), s, m + (k - k0))
      decreases |p| - i
    {
      if p[i] == STAR {
        matched, skip := MatchStar(p, i, s, k);
        assert skip ==> forall m :: k0 <= m <= |s| && FitsAt(Tokens(p, i0), s, m) ==>
          !FitsAt(Tokens(p, i), s, m + (k - k0));
        return;
      }
      forall m ensures FitsAt(Tokens(p, i), s, m) <==>
              0 <= m < |s| && Accepts(TokenAt(p, i).0, s[m]) && FitsAt(Tokens(p, TokenAt(p, i).1), s, m + 1) {
        OneStep(p, i, s, m);
      }
      var ok, next := MatchOne(p, i, s[k]);
      if !ok {
        return false, false;
      }
      k := k + 1;
      i := next;
      if k == |s| {
        EndFits(p, i, s);
        i := SkipStars(p, i);
        break;
      }
    }
    PatternUsedUp(p, s, k);
    matched := i == |p| && k == |s|;
  }

  /** The `*` case (lines 66-100): try the rest of the pattern at every remaining position. */
  method MatchStar(p: seq<Ch>, i0: nat, s: seq<Ch>, k0: nat) returns (matched: bool, skip: bool)
    requires i0 < |p| && p[i0] == STAR && k0 < |s|
    ensures matched <==> FitsAt(Tokens(p, i0), s, k0)
    ensures skip ==> !matched && NoLaterStart(p, i0, s, k0)
    decreases |p| - i0, 0
  {
    var i := i0;
    while i < |p| && At(p, i + 1) == STAR
      invariant i0 <= i < |p| && p[i] == STAR
      invariant forall m: nat :: m <= |s| ==> (FitsAt(Tokens(p, i0), s, m) <==> FitsAt(Tokens(p, i), s, m))
      decreases |p| - i
    {
      forall m: nat | m <= |s|
        ensures FitsAt(Tokens(p, i), s, m) <==> FitsAt(Tokens(p, i + 1), s, m)
      {
        StarsCollapse(p, i, s, m);
      }
      i := i + 1;
    }
    ghost var rest := Tokens(p, i + 1);
    forall m | k0 <= m <= |s| ensures FitsAt(Tokens(p, i0), s, m) <==> FitsLater(rest, s, m) {
      StarStep(p, i, s, m);
    }
    if i + 1 == |p| {
      AllStarsFit(p, i, s, k0);
      return true, false;
    }
    var k := k0;
    while k < |s|
      invariant k0 <= k <= |s|
      invariant forall m :: k0 <= m < k ==> !FitsAt(rest, s, m)
    {
      matched, skip := StringMatchImpl(p, i + 1, s, k);
      if matched {
        assert FitsLater(rest, s, k0);
        return true, false;
      }
      if skip {
        assert forall m :: k0 <= m <= |s| ==> !FitsAt(rest, s, m);
        return false, true;
      }
      k := k + 1;
    }
    EndFits(p, i + 1, s);
    assert forall m :: k0 <= m <= |s| ==> !FitsAt(rest, s, m);
    return false, true;
  }

  /** What a pattern means: it spells tokens that fit the string.  The empty pattern is the one exception: it matches
      every string. */
  ghost predicate Matches(p: seq<Ch>, s: seq<Ch>) {
    p == [] || exists ts :: Spells(p, ts) && Fits(ts, s)
  }

  /** stringmatchlen decides that relation. */
  method StringMatchLen(p: seq<Ch>, s: seq<Ch>) returns (matched: bool)
    ensures matched <==> Matches(p, s)
  {
    var skip;
    matched, skip := StringMatchImpl(p, 0, s, 0);
    FitsAtIffSplit(Tokens(p, 0), s);
    ReadOnce(p, s);
  }

  lemma ReadOnce(p: seq<Ch>, s: seq<Ch>)
    ensures (exists ts :: Spells(p, ts) && Fits(ts, s)) <==> Fits(Tokens(p, 0), s)
  {
    SpellsIff(p, Tokens(p, 0));
    if ts :| Spells(p, ts) && Fits(ts, s) {
      SpellsIff(p, ts);
    }
  }

  /** One token on one character: a question mark takes any, a literal its own, a class the characters that are among
      its singles or between the ends of one of its ranges, and a negated one the others. */
  lemma TokenMeaning(t: Token, c: Ch)
    requires Writable(t)
    ensures Matches(RenderToken(t), [c]) <==>
      match t
      case Star => true
      case AnyOne => true
      case Lit(d) => c == d
      case Class(negated, items) =>
        negated != (Single(c) in items || exists lo: Ch, hi: Ch :: Range(lo, hi) in items && lo <= c && c <= hi)
  {
    var ts := [t];
    assert Render(ts) == RenderToken(t) by { assert ts[1..] == [] && Render(ts[1..]) == []; }
    RenderInverse(ts);
    SpellsIff(Render(ts), ts);
    ReadOnce(Render(ts), [c]);
    FitsOne(t, c);
    if t.Class? {
      AmongItems(t.items, c);
    }
  }

  lemma FitsOne(t: Token, c: Ch)
    ensures Fits([t], [c]) <==> t.Star? || Accepts(t, c)
  {
    FitsAtIffSplit([t], [c]);
    assert [t][1..] == [];
    assert FitsAt([], [c], 1);
    assert forall j :: FitsAt([], [c], j) <==> j == 1;
  }

  lemma AmongItems(items: seq<Item>, c: Ch)
    ensures AnyItemAccepts(items, c) <==>
      Single(c) in items || exists lo: Ch, hi: Ch :: Range(lo, hi) in items && lo <= c && c <= hi
  {
    if AnyItemAccepts(items, c) {
      var i :| 0 <= i < |items| && ItemAccepts(items[i], c);
      assert items[i] in items;
    }
    if Single(c) in items {
      var i :| 0 <= i < |items| && items[i] == Single(c);
      assert ItemAccepts(items[i], c);
    }
    if lo: Ch, hi: Ch :| Range(lo, hi) in items && lo <= c && c <= hi {
      var i :| 0 <= i < |items| && items[i] == Range(lo, hi);
      assert ItemAccepts(items[i], c);
    }
  }

  /** Written out, any tokens that can be written match exactly the strings that fit them. */
  method MatchRendered(ts: seq<Token>, s: seq<Ch>) returns (matched: bool)
    requires ts != [] && AllWritable(ts)
    ensures matched <==> Fits(ts, s)
  {
    matched := StringMatchLen(Render(ts), s);
    RenderInverse(ts);
    SpellsIff(Render(ts), ts);
    ReadOnce(Render(ts), s);
  }
}
