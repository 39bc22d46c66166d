/** The syntax of glob patterns (src/redis_string_match.cpp:101-206).

    `Tokens` reads a pattern as the matcher does, from left to right.  `Spells` is the grammar: which strings write
    which tokens.  A string spells exactly the tokens that reading it gives. */
module GlobSyntax {

  /** C's `char` on the supported platforms: a signed byte. Character ranges compare as signed. */
  type Ch = c: int | -128 <= c < 128

  const NUL: Ch := 0
  const STAR: Ch := '*' as int
  const DASH: Ch := '-' as int
  const QUESTION: Ch := '?' as int
  const OPEN: Ch := '[' as int
  const BACKSLASH: Ch := '\\' as int
  const CLOSE: Ch := ']' as int
  const CARET: Ch := '^' as int

  datatype Item = Single(c: Ch) | Range(lo: Ch, hi: Ch)

  datatype Token =
    | Star
    | AnyOne
    | Lit(c: Ch)
    | Class(negated: bool, items: seq<Item>)

  /** The byte at a pattern position; the position just past the end reads the NUL terminator. */
  function At(p: seq<Ch>, i: nat): Ch {
    if i < |p| then p[i] else NUL
  }

  function RangeOf(a: Ch, b: Ch): Item {
    if a > b then Range(b, a) else Range(a, b)
  }

  /** The members of a bracket class whose body starts at `i`, and the position after the class.
      A class that is never closed extends to the end of the pattern. */
  function ClassItems(p: seq<Ch>, i: nat): (r: (seq<Item>, nat))
    requires i <= |p|
    ensures i <= r.1 <= |p|
    decreases |p| - i
  {
    if At(p, i) == BACKSLASH && |p| - i >= 2 then
      var (items, j) := ClassItems(p, i + 2);
      ([Single(p[i + 1])] + items, j)
    else if At(p, i) == CLOSE then
      ([], i + 1)
    else if i == |p| then
      ([], i)
    else if |p| - i >= 3 && p[i + 1] == DASH then
      var (items, j) := ClassItems(p, i + 3);
      ([RangeOf(p[i], p[i + 2])] + items, j)
    else
      var (items, j) := ClassItems(p, i + 1);
      ([Single(p[i])] + items, j)
  }

  /** The token that starts at `i`, and the position after it. */
  function TokenAt(p: seq<Ch>, i: nat): (r: (Token, nat))
    requires i < |p|
    ensures i < r.1 <= |p|
    ensures r.0.Star? <==> p[i] == STAR
  {
    if p[i] == STAR then (Star, i + 1)
    else if p[i] == QUESTION then (AnyOne, i + 1)
    else if p[i] == OPEN then
      var negated := At(p, i + 1) == CARET;
      var (items, j) := ClassItems(p, if negated then i + 2 else i + 1);
      (Class(negated, items), j)
    else if p[i] == BACKSLASH && |p| - i >= 2 then (Lit(p[i + 1]), i + 2)
    else (Lit(p[i]), i + 1)
  }

  function Tokens(p: seq<Ch>, i: nat): seq<Token>
    requires i <= |p|
    decreases |p| - i
  {
    if i == |p| then []
    else
      var (t, j) := TokenAt(p, i);
      [t] + Tokens(p, j)
  }

  // ---- the grammar ------------------------------------------------------------------------------

  /** Inside brackets, `x` writes the item when `after` follows: an escaped character; a plain one, unless it would
      close the class or open a range or an escape; or two characters with a dash, in either order. */
  ghost predicate SpellsItem(x: seq<Ch>, it: Item, after: seq<Ch>) {
    match it
    case Single(c) =>
      || x == [BACKSLASH, c]
      || (x == [c] && c != CLOSE && (c == BACKSLASH ==> after == []) && !(|after| >= 2 && after[0] == DASH))
    case Range(lo, hi) =>
      && |x| == 3 && x[0] != CLOSE && x[0] != BACKSLASH && x[1] == DASH
      && lo <= hi && ((x[0] == lo && x[2] == hi) || (x[0] == hi && x[2] == lo))
  }

  /** The items one after the other and the closing bracket, which may be missing at the end of the pattern. */
  ghost predicate SpellsItems(x: seq<Ch>, items: seq<Item>, after: seq<Ch>)
    decreases |items|
  {
    if items == [] then x == [CLOSE] || (x == [] && after == [])
    else
      exists n ::
        0 < n <= |x| && SpellsItem(x[..n], items[0], x[n..] + after) && SpellsItems(x[n..], items[1..], after)
  }

  predicate IsSpecial(c: Ch) { c == STAR || c == QUESTION || c == OPEN || c == BACKSLASH }

  /** `x` writes the token when `after` follows. */
  ghost predicate SpellsToken(x: seq<Ch>, t: Token, after: seq<Ch>) {
    match t
    case Star => x == [STAR]
    case AnyOne => x == [QUESTION]
    case Lit(c) => x == [BACKSLASH, c] || (x == [c] && (!IsSpecial(c) || (c == BACKSLASH && after == [])))
    case Class(negated, items) =>
      if negated then |x| >= 2 && x[0] == OPEN && x[1] == CARET && SpellsItems(x[2..], items, after)
      else |x| >= 1 && x[0] == OPEN && (|x| >= 2 ==> x[1] != CARET) && SpellsItems(x[1..], items, after)
  }

  /** The pattern falls into pieces that write the tokens, in order. */
  ghost predicate Spells(p: seq<Ch>, ts: seq<Token>)
    decreases |ts|
  {
    if ts == [] then p == []
    else exists n :: 0 < n <= |p| && SpellsToken(p[..n], ts[0], p[n..]) && Spells(p[n..], ts[1..])
  }

  // ---- reading gives the tokens that were written -----------------------------------------------------

  lemma FirstItem(x: seq<Ch>, items: seq<Item>, after: seq<Ch>) returns (n: nat)
    requires items != [] && SpellsItems(x, items, after)
    ensures 0 < n <= |x| && SpellsItem(x[..n], items[0], x[n..] + after) && SpellsItems(x[n..], items[1..], after)
  {
    n :| 0 < n <= |x| && SpellsItem(x[..n], items[0], x[n..] + after) && SpellsItems(x[n..], items[1..], after);
  }

  lemma Pieces(p: seq<Ch>, i: nat, n: nat, j: nat)
    requires i + n <= j <= |p|
    ensures p[i..j][..n] == p[i..i + n] && p[i..j][n..] == p[i + n..j] && p[i..j][n..] + p[j..] == p[i + n..]
  {
  }

  lemma NoItemsRead(p: seq<Ch>, i: nat, j: nat)
    requires i <= j <= |p| && SpellsItems(p[i..j], [], p[j..])
    ensures ClassItems(p, i).0 == [] && ClassItems(p, i).1 == j
  {
    var x, after := p[i..j], p[j..];
    assert x != [] ==> p[i] == x[0];
    assert |x| == j - i && |after| == |p| - j;
  }

  lemma {:induction false} ItemsRead(p: seq<Ch>, i: nat, j: nat, items: seq<Item>)
    requires i <= j <= |p| && SpellsItems(p[i..j], items, p[j..])
    ensures ClassItems(p, i).0 == items && ClassItems(p, i).1 == j
    decreases |items|
  {
    hide *;
    var x, after := p[i..j], p[j..];
    if items == [] {
      NoItemsRead(p, i, j);
    } else {
      var n := FirstItem(x, items, after);
      Pieces(p, i, n, j);
      ItemsRead(p, i + n, j, items[1..]);
      ItemRead(p, i, n, items[0]);
    }
  }

  /** One item that is spelled at `i` is read there, and reading goes on behind it. */
  lemma ItemRead(p: seq<Ch>, i: nat, n: nat, it: Item)
    requires i + n <= |p| && SpellsItem(p[i..i + n], it, p[i + n..])
    ensures ClassItems(p, i).0 == [it] + ClassItems(p, i + n).0 && ClassItems(p, i).1 == ClassItems(p, i + n).1
  {
    var x, after := p[i..i + n], p[i + n..];
    assert forall k :: 0 <= k < |x| ==> x[k] == p[i + k];
    assert |after| == |p| - i - n && (after != [] ==> after[0] == p[i + n]);
    assert |x| == n;
  }

  lemma ClassRead(p: seq<Ch>, i: nat, n: nat, t: Token)
    requires t.Class? && 0 < n && i + n <= |p| && SpellsToken(p[i..i + n], t, p[i + n..])
    ensures TokenAt(p, i).0 == t && TokenAt(p, i).1 == i + n
  {
    var x := p[i..i + n];
    var k := if t.negated then 2 else 1;
    assert x[0] == p[i] && (n >= 2 ==> x[1] == p[i + 1]) && |p[i + n..]| == |p| - i - n;
    if n == 1 {
      assert x[1..] == [];
      NothingLeft(t.items, p[i + n..]);
    }
    Pieces(p, i, k, i + n);
    hide SpellsItems, ClassItems;
    ItemsRead(p, i + k, i + n, t.items);
  }

  lemma NothingLeft(items: seq<Item>, after: seq<Ch>)
    requires SpellsItems([], items, after)
    ensures after == []
  {
  }

  lemma TokenRead(p: seq<Ch>, i: nat, n: nat, t: Token)
    requires 0 < n && i + n <= |p| && SpellsToken(p[i..i + n], t, p[i + n..])
    ensures TokenAt(p, i).0 == t && TokenAt(p, i).1 == i + n
  {
    hide SpellsItems, ClassItems;
    if t.Class? {
      ClassRead(p, i, n, t);
    } else {
      var x, after := p[i..i + n], p[i + n..];
      assert |x| == n && |after| == |p| - i - n && x[0] == p[i];
      assert n == 2 ==> p[i + 1] == x[1];
    }
  }

  lemma FirstToken(p: seq<Ch>, ts: seq<Token>) returns (n: nat)
    requires ts != [] && Spells(p, ts)
    ensures 0 < n <= |p| && SpellsToken(p[..n], ts[0], p[n..]) && Spells(p[n..], ts[1..])
  {
    n :| 0 < n <= |p| && SpellsToken(p[..n], ts[0], p[n..]) && Spells(p[n..], ts[1..]);
  }

  lemma TokensUnfold(p: seq<Ch>, i: nat)
    requires i < |p|
    ensures Tokens(p, i) == [TokenAt(p, i).0] + Tokens(p, TokenAt(p, i).1)
  {
  }

  lemma NoTokensRead(p: seq<Ch>, i: nat)
    requires i <= |p| && Spells(p[i..], [])
    ensures Tokens(p, i) == []
  {
  }

  lemma {:induction false} SpelledReads(p: seq<Ch>, i: nat, ts: seq<Token>)
    requires i <= |p| && Spells(p[i..], ts)
    ensures Tokens(p, i) == ts
    decreases |ts|
  {
    hide *;
    if ts == [] {
      NoTokensRead(p, i);
    } else {
      var q := p[i..];
      var n := FirstToken(q, ts);
      assert q[..n] == p[i..i + n] && q[n..] == p[i + n..];
      TokenRead(p, i, n, ts[0]);
      SpelledReads(p, i + n, ts[1..]);
      TokensUnfold(p, i);
    }
  }

  // ---- what is read was written -------------------------------------------------------------------------

  /** Put an item in front of spelled items. */
  lemma ItemsCons(p: seq<Ch>, i: nat, k: nat, j: nat, it: Item, items: seq<Item>)
    requires i < k <= j <= |p| && SpellsItem(p[i..k], it, p[k..]) && SpellsItems(p[k..j], items, p[j..])
    ensures SpellsItems(p[i..j], [it] + items, p[j..])
  {
    hide SpellsItem;
    var x, n := p[i..j], k - i;
    assert x[..n] == p[i..k] && x[n..] == p[k..j] && x[n..] + p[j..] == p[k..];
    assert ([it] + items)[1..] == items;
  }

  /** The item that is read at a position inside a class, and where reading goes on. */
  lemma ReadItemSpells(p: seq<Ch>, i: nat) returns (it: Item, k: nat)
    requires i < |p| && p[i] != CLOSE
    ensures i < k <= |p| && SpellsItem(p[i..k], it, p[k..])
    ensures ClassItems(p, i).0 == [it] + ClassItems(p, k).0 && ClassItems(p, i).1 == ClassItems(p, k).1
  {
    if p[i] == BACKSLASH && |p| - i >= 2 {
      it, k := Single(p[i + 1]), i + 2;
      assert p[i..k] == [BACKSLASH, p[i + 1]];
    } else if |p| - i >= 3 && p[i + 1] == DASH {
      it, k := RangeOf(p[i], p[i + 2]), i + 3;
    } else {
      it, k := Single(p[i]), i + 1;
      assert p[i..k] == [p[i]];
      assert |p[k..]| == |p| - k && (k < |p| ==> p[k..][0] == p[k]);
    }
  }

  lemma ClassEnds(p: seq<Ch>, i: nat)
    requires i <= |p| && (i < |p| ==> p[i] == CLOSE)
    ensures SpellsItems(p[i..ClassItems(p, i).1], ClassItems(p, i).0, p[ClassItems(p, i).1..])
  {
    if i < |p| {
      assert p[i..i + 1] == [CLOSE];
    }
  }

  lemma {:induction false} ReadItemsSpell(p: seq<Ch>, i: nat)
    requires i <= |p|
    ensures SpellsItems(p[i..ClassItems(p, i).1], ClassItems(p, i).0, p[ClassItems(p, i).1..])
    decreases |p| - i
  {
    hide SpellsItem, SpellsItems, ClassItems;
    if i == |p| || p[i] == CLOSE {
      ClassEnds(p, i);
    } else {
      var it, k := ReadItemSpells(p, i);
      ReadItemsSpell(p, k);
      ItemsCons(p, i, k, ClassItems(p, i).1, it, ClassItems(p, k).0);
    }
  }

  lemma ReadTokenSpells(p: seq<Ch>, i: nat)
    requires i < |p|
    ensures SpellsToken(p[i..TokenAt(p, i).1], TokenAt(p, i).0, p[TokenAt(p, i).1..])
  {
    hide SpellsItems;
    var (t, j) := TokenAt(p, i);
    var x := p[i..j];
    if t.Class? {
      var k := if t.negated then i + 2 else i + 1;
      ReadItemsSpell(p, k);
      assert x[k - i..] == p[k..j];
    }
  }

  /** Every pattern spells the tokens that are read from it. */
  lemma {:induction false} ReadSpells(p: seq<Ch>, i: nat)
    requires i <= |p|
    ensures Spells(p[i..], Tokens(p, i))
    decreases |p| - i
  {
    if i < |p| {
      hide SpellsToken, TokenAt;
      var (t, j) := TokenAt(p, i);
      ReadTokenSpells(p, i);
      ReadSpells(p, j);
      var q, n := p[i..], j - i;
      assert q[..n] == p[i..j] && q[n..] == p[j..];
      assert Tokens(p, i)[1..] == Tokens(p, j);
    }
  }

  /** A pattern spells one token sequence: the one that is read. */
  lemma SpellsIff(p: seq<Ch>, ts: seq<Token>)
    ensures Spells(p, ts) <==> Tokens(p, 0) == ts
  {
    assert p[0..] == p;
    ReadSpells(p, 0);
    if Spells(p, ts) {
      SpelledReads(p, 0, ts);
    }
  }

  // ---- writing tokens -----------------------------------------------------------------------------------

  /** The items that can be written: a range has an end that may come first. */
  predicate WritableItem(it: Item) {
    it.Range? ==> it.lo <= it.hi && ((it.lo != CLOSE && it.lo != BACKSLASH) || (it.hi != CLOSE && it.hi != BACKSLASH))
  }

  /** At the start of a class that is not negated, a caret would negate it. */
  predicate WritableFirst(it: Item) {
    it.Range? ==> it.lo !in {CLOSE, BACKSLASH, CARET} || it.hi !in {CLOSE, BACKSLASH, CARET}
  }

  predicate Writable(t: Token) {
    t.Class? ==>
      && (forall i :: 0 <= i < |t.items| ==> WritableItem(t.items[i]))
      && (t.items != [] && !t.negated ==> WritableFirst(t.items[0]))
  }

  /** Plain where that is possible, escaped where it is not. */
  function RenderItem(it: Item, after: seq<Ch>): seq<Ch> {
    match it
    case Single(c) =>
      if c in {CLOSE, BACKSLASH, CARET} || (after != [] && after[0] == DASH) then [BACKSLASH, c] else [c]
    case Range(lo, hi) =>
      if lo in {CLOSE, BACKSLASH, CARET} then [hi, DASH, lo] else [lo, DASH, hi]
  }

  function RenderItems(items: seq<Item>): seq<Ch> {
    if items == [] then [CLOSE]
    else
      var rest := RenderItems(items[1..]);
      RenderItem(items[0], rest) + rest
  }

  function RenderToken(t: Token): seq<Ch> {
    match t
    case Star => [STAR]
    case AnyOne => [QUESTION]
    case Lit(c) => if IsSpecial(c) then [BACKSLASH, c] else [c]
    case Class(negated, items) => (if negated then [OPEN, CARET] else [OPEN]) + RenderItems(items)
  }

  function Render(ts: seq<Token>): seq<Ch> {
    if ts == [] then [] else RenderToken(ts[0]) + Render(ts[1..])
  }

  predicate AllWritable(ts: seq<Token>) { forall i :: 0 <= i < |ts| ==> Writable(ts[i]) }

  lemma {:induction false} RenderedItems(items: seq<Item>, after: seq<Ch>)
    requires forall i :: 0 <= i < |items| ==> WritableItem(items[i])
    ensures SpellsItems(RenderItems(items), items, after)
    ensures RenderItems(items) != []
    ensures items != [] && WritableFirst(items[0]) ==> RenderItems(items)[0] != CARET
  {
    if items != [] {
      var it, rest := items[0], RenderItems(items[1..]);
      RenderedItems(items[1..], after);
      var x, n := RenderItems(items), |RenderItem(it, rest)|;
      hide SpellsItems, RenderItems;
      assert x[..n] == RenderItem(it, rest) && x[n..] == rest;
      RenderedItem(it, rest, after);
      PutFirst(x, n, items, after);
    }
  }

  lemma RenderedItem(it: Item, rest: seq<Ch>, after: seq<Ch>)
    requires WritableItem(it) && rest != []
    ensures SpellsItem(RenderItem(it, rest), it, rest + after)
  {
  }

  lemma PutFirst(x: seq<Ch>, n: nat, items: seq<Item>, after: seq<Ch>)
    requires items != [] && 0 < n <= |x|
    requires SpellsItem(x[..n], items[0], x[n..] + after) && SpellsItems(x[n..], items[1..], after)
    ensures SpellsItems(x, items, after)
  {
  }

  lemma RenderedToken(t: Token, after: seq<Ch>)
    requires Writable(t)
    ensures SpellsToken(RenderToken(t), t, after)
  {
    if t.Class? {
      hide SpellsItems, RenderItems, WritableItem, WritableFirst;
      RenderedItems(t.items, after);
      var x := RenderToken(t);
      assert x[if t.negated then 2 else 1..] == RenderItems(t.items);
      assert t.items == [] ==> RenderItems(t.items) == [CLOSE] by { NothingRendered(t.items); }
    }
  }

  lemma NothingRendered(items: seq<Item>)
    ensures items == [] ==> RenderItems(items) == [CLOSE]
  {
  }

  lemma {:induction false} RenderedSpells(ts: seq<Token>)
    requires AllWritable(ts)
    ensures Spells(Render(ts), ts)
  {
    if ts != [] {
      var p, n := Render(ts), |RenderToken(ts[0])|;
      assert p[..n] == RenderToken(ts[0]) && p[n..] == Render(ts[1..]);
      RenderedToken(ts[0], p[n..]);
      RenderedSpells(ts[1..]);
    }
  }

  lemma {:induction false} SpelledItemsWritable(x: seq<Ch>, items: seq<Item>, after: seq<Ch>)
    requires SpellsItems(x, items, after)
    ensures forall i :: 0 <= i < |items| ==> WritableItem(items[i])
    ensures items != [] && x[0] != CARET ==> WritableFirst(items[0])
    decreases |items|
  {
    if items != [] {
      var n := FirstItem(x, items, after);
      SpelledItemsWritable(x[n..], items[1..], after);
      assert forall i :: 1 <= i < |items| ==> items[i] == items[1..][i - 1];
    }
  }

  lemma {:induction false} SpelledWritable(p: seq<Ch>, ts: seq<Token>)
    requires Spells(p, ts)
    ensures AllWritable(ts)
    decreases |ts|
  {
    if ts != [] {
      var n := FirstToken(p, ts);
      SpelledWritable(p[n..], ts[1..]);
      var t, x := ts[0], p[..n];
      assert Writable(t) by {
        if t.Class? {
          SpelledItemsWritable(x[if t.negated then 2 else 1..], t.items, p[n..]);
        }
      }
      assert forall i :: 1 <= i < |ts| ==> ts[i] == ts[1..][i - 1];
    }
  }

  /** Reading undoes writing; and the token sequences that can be written at all are those that reading yields. */
  lemma RenderInverse(ts: seq<Token>)
    ensures AllWritable(ts) <==> Tokens(Render(ts), 0) == ts
    ensures AllWritable(ts) <==> exists p :: Spells(p, ts)
  {
    SpellsIff(Render(ts), ts);
    if AllWritable(ts) {
      RenderedSpells(ts);
    }
    if p :| Spells(p, ts) {
      SpelledWritable(p, ts);
    }
  }
}
