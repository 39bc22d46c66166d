/** LZF decompression (src/redis_rdb_restore.cpp:878-946). */
module Lzf {
  import opened Arithmetic
  import opened Bytes

  /** The longest output the reader will allocate: 64 MiB. */
  const MAX_DECODED: nat := 67108864

  /** A run of literal bytes, or a copy of earlier output that may overlap what it produces. */
  datatype Token = Literal(bytes: Str) | Copy(len: nat, distance: nat)

  predicate WellFormed(t: Token, produced: nat) {
    match t
    case Literal(bytes) => 1 <= |bytes| <= 32
    case Copy(len, distance) => 3 <= len <= 264 && 1 <= distance <= 8192 && distance <= produced
  }

  /** Where byte `i` of a copy comes from, when `n` bytes have been written: the last `d` of them, over and over. */
  function Source(n: nat, d: nat, i: nat): (r: nat)
    requires 1 <= d <= n
    ensures n - d <= r < n
  {
    n - d + i % d
  }

  /** What a token adds: a copy repeats the last `distance` bytes as often as needed. */
  function Produces(t: Token, out: Str): (r: Str)
    requires WellFormed(t, |out|)
    ensures |r| == Length(t)
  {
    match t
    case Literal(bytes) => bytes
    case Copy(len, distance) => seq(len, i requires 0 <= i < len => out[Source(|out|, distance, i)])
  }

  function Length(t: Token): nat { if t.Literal? then |t.bytes| else t.len }

  ghost predicate AllWellFormed(ts: seq<Token>, produced: nat) {
    ts == [] || (WellFormed(ts[0], produced) && AllWellFormed(ts[1..], produced + Length(ts[0])))
  }

  /** Token-by-token expansion. */
  ghost function Expand(ts: seq<Token>, out: Str): Str
    requires AllWellFormed(ts, |out|)
  {
    if ts == [] then out else Expand(ts[1..], out + Produces(ts[0], out))
  }

  function TokenBytes(t: Token): Str
    requires WellFormed(t, 8192)
  {
    match t
    case Literal(bytes) => [|bytes| - 1] + bytes
    case Copy(len, distance) =>
      var l, off := len - 2, distance - 1;
      if l < 7 then [32 * l + off / 256, off % 256] else [224 + off / 256, l - 7, off % 256]
  }

  /** The compressed form of a token sequence. */
  ghost function Encode(ts: seq<Token>, produced: nat): Str
    requires AllWellFormed(ts, produced)
  {
    if ts == [] then [] else TokenBytes(ts[0]) + Encode(ts[1..], produced + Length(ts[0]))
  }

  // ---- reading one token ------------------------------------------------------------------------

  datatype Next = Stuck | Got(token: Token, rest: Str)

  /** The stream ends inside a long back-reference, right after its length byte.  The source does not look for the end
      there: it takes the offset from the byte behind the stream. */
  predicate Cut(c: Str, produced: nat) { |c| == 2 && c[0] >= 224 && produced > 0 }

  /** The first token of a stream, when `produced` bytes have been written and `beyond` is the byte behind it. */
  function NextToken(c: Str, produced: nat, beyond: byte): (n: Next)
    requires c != []
    ensures n.Got? ==> WellFormed(n.token, produced) && |n.rest| < |c|
  {
    var ctrl: int := c[0];
    if ctrl < 32 then
      if |c| - 1 < ctrl + 1 then Stuck else Got(Literal(c[1..ctrl + 2]), c[ctrl + 2..])
    else if |c| < 2 || produced == 0 then Stuck
    else
      var long, cut := ctrl / 32 == 7, Cut(c, produced);
      var extra: int, low: int := if long then c[1] else 0, if cut then beyond else c[if long then 2 else 1];
      var len, distance := ctrl / 32 + extra + 2, ctrl % 32 * 256 + low + 1;
      if distance > produced then Stuck
      else Got(Copy(len, distance), if cut then [] else c[if long then 3 else 2..])
  }

  lemma BeyondIgnored(c: Str, produced: nat, b1: byte, b2: byte)
    requires c != [] && !Cut(c, produced)
    ensures NextToken(c, produced, b1) == NextToken(c, produced, b2)
  {
  }

  lemma TokenInverse(t: Token, produced: nat, rest: Str, beyond: byte)
    requires WellFormed(t, produced)
    ensures NextToken(TokenBytes(t) + rest, produced, beyond) == Got(t, rest)
    ensures !Cut(TokenBytes(t) + rest, produced)
  {
    var c := TokenBytes(t) + rest;
    if t.Literal? {
      assert c[1..|t.bytes| + 1] == t.bytes && c[|t.bytes| + 1..] == rest;
    } else {
      var l, off := t.len - 2, t.distance - 1;
      assert c[if l < 7 then 2 else 3..] == rest;
    }
  }

  lemma TokenOnly(c: Str, produced: nat, beyond: byte)
    requires c != [] && NextToken(c, produced, beyond).Got? && !Cut(c, produced)
    ensures c == TokenBytes(NextToken(c, produced, beyond).token) + NextToken(c, produced, beyond).rest
  {
  }

  /** One more byte at the end of a stream leaves the first token alone, unless it completes it. */
  lemma TokenOfLonger(c: Str, produced: nat, last: byte, beyond: byte)
    requires c != [] && NextToken(c, produced, last).Got?
    ensures !Cut(c + [last], produced)
    ensures NextToken(c + [last], produced, beyond) ==
      var n := NextToken(c, produced, last); Got(n.token, if Cut(c, produced) then [] else n.rest + [last])
  {
    var n := NextToken(c, produced, last);
    if Cut(c, produced) {
      assert (c + [last])[3..] == [];
    } else {
      TokenOnly(c, produced, last);
      hide NextToken, TokenBytes;
      Assoc(TokenBytes(n.token), n.rest, [last]);
      TokenInverse(n.token, produced, n.rest + [last], beyond);
    }
  }

  // ---- the whole stream -------------------------------------------------------------------------

  datatype Result = Failed | Done(out: Str)

  function Decompress(c: Str, out: Str, beyond: byte): Result
    decreases |c|
  {
    if c == [] then Done(out)
    else
      var n := NextToken(c, |out|, beyond);
      if n.Stuck? then Failed else Decompress(n.rest, out + Produces(n.token, out), beyond)
  }

  /** The loop comes to a cut back-reference with all tokens before it inside the declared length. */
  predicate Overreads(c: Str, out: Str, expected: nat)
    decreases |c|
  {
    c != [] && (
      || Cut(c, |out|)
      || (var n := NextToken(c, |out|, 0);
          && n.Got? && |out| + Length(n.token) <= expected
          && Overreads(n.rest, out + Produces(n.token, out), expected)))
  }

  lemma {:induction false} DecompressInvertsEncode(ts: seq<Token>, out: Str, beyond: byte)
    requires AllWellFormed(ts, |out|)
    ensures Decompress(Encode(ts, |out|), out, beyond) == Done(Expand(ts, out))
    decreases |ts|
  {
    if ts == [] {
      Finished(out, 0, beyond);
    } else {
      var t, next := ts[0], out + Produces(ts[0], out);
      OneMore(t, ts[1..], out);
      assert [t] + ts[1..] == ts;
      hide NextToken, TokenBytes, Encode, Expand, Produces;
      TokenInverse(t, |out|, Encode(ts[1..], |next|), beyond);
      DecompressInvertsEncode(ts[1..], next, beyond);
    }
  }

  lemma OneMore(t: Token, more: seq<Token>, out: Str)
    requires WellFormed(t, |out|) && AllWellFormed(more, |out + Produces(t, out)|)
    ensures AllWellFormed([t] + more, |out|)
    ensures Encode([t] + more, |out|) == TokenBytes(t) + Encode(more, |out + Produces(t, out)|)
    ensures Expand([t] + more, out) == Expand(more, out + Produces(t, out))
  {
    assert ([t] + more)[1..] == more;
  }

  /** A stream that decompresses without running over its end is an encoding. */
  lemma {:induction false} DecompressOnlyEncodings(c: Str, out: Str, beyond: byte) returns (ts: seq<Token>)
    requires Decompress(c, out, beyond).Done? && !Overreads(c, out, |Decompress(c, out, beyond).out|)
    ensures AllWellFormed(ts, |out|) && Encode(ts, |out|) == c && Expand(ts, out) == Decompress(c, out, beyond).out
    decreases |c|
  {
    if c == [] {
      ts := [];
    } else {
      hide NextToken, Produces, TokenBytes, AllWellFormed, Encode, Expand, Cut;
      var n := NextToken(c, |out|, beyond);
      TokenOnly(c, |out|, beyond);
      BeyondIgnored(c, |out|, beyond, 0);
      DecompressGrows(n.rest, out + Produces(n.token, out), beyond);
      var more := DecompressOnlyEncodings(n.rest, out + Produces(n.token, out), beyond);
      OneMore(n.token, more, out);
      ts := [n.token] + more;
    }
  }

  lemma {:induction false} DecompressGrows(c: Str, out: Str, beyond: byte)
    requires Decompress(c, out, beyond).Done?
    ensures |Decompress(c, out, beyond).out| >= |out|
    decreases |c|
  {
    if c != [] {
      hide NextToken;
      var n := NextToken(c, |out|, beyond);
      DecompressGrows(n.rest, out + Produces(n.token, out), beyond);
    }
  }

  /** A stream that runs over its end is treated as if the byte behind it belonged to it. */
  lemma {:induction false} AsIfThere(c: Str, out: Str, expected: nat, beyond: byte, b: byte)
    requires Overreads(c, out, expected)
    ensures Decompress(c, out, beyond) == Decompress(c + [beyond], out, b)
    ensures !Overreads(c + [beyond], out, expected)
    decreases |c|
  {
    hide Produces, TokenBytes;
    if Cut(c, |out|) {
      var longer := c + [beyond];
      assert longer[3..] == [];
      assert NextToken(longer, |out|, b) == NextToken(c, |out|, beyond) == NextToken(longer, |out|, 0);
    } else {
      BeyondIgnored(c, |out|, beyond, 0);
      var n := NextToken(c, |out|, beyond);
      TokenOfLonger(c, |out|, beyond, b);
      TokenOfLonger(c, |out|, beyond, 0);
      hide NextToken;
      AsIfThere(n.rest, out + Produces(n.token, out), expected, beyond, b);
    }
  }

  /** The byte behind the stream is read exactly when the stream is an encoding followed by the first two bytes of a
      long back-reference, and what comes before fits the declared length. */
  lemma OverreadsIff(c: Str, expected: nat)
    ensures Overreads(c, [], expected) <==>
      exists ts, ctrl, extra :: ts != [] && AllWellFormed(ts, 0) && |Expand(ts, [])| <= expected
        && 224 <= ctrl < 256 && c == Encode(ts, 0) + [ctrl, extra]
  {
    if Overreads(c, [], expected) {
      var ts, ctrl, extra := OverreadsOnly(c, [], expected);
      assert ts != [] && AllWellFormed(ts, 0) && |Expand(ts, [])| <= expected
          && 224 <= ctrl < 256 && c == Encode(ts, 0) + [ctrl, extra];
    }
    forall ts, ctrl, extra | ts != [] && AllWellFormed(ts, 0) && |Expand(ts, [])| <= expected
        && 224 <= ctrl < 256 && c == Encode(ts, 0) + [ctrl, extra] ensures Overreads(c, [], expected) {
      CutOverreads(ts, ctrl, extra, [], expected);
    }
  }

  lemma {:induction false} OverreadsOnly(c: Str, out: Str, expected: nat)
    returns (ts: seq<Token>, ctrl: byte, extra: byte)
    requires Overreads(c, out, expected)
    ensures AllWellFormed(ts, |out|) && 224 <= ctrl && c == Encode(ts, |out|) + [ctrl, extra]
    ensures ts == [] ==> out != []
    ensures ts != [] ==> |Expand(ts, out)| <= expected
    decreases |c|
  {
    if Cut(c, |out|) {
      ts, ctrl, extra := [], c[0], c[1];
    } else {
      hide NextToken, Produces, TokenBytes, AllWellFormed, Encode, Expand;
      var n := NextToken(c, |out|, 0);
      TokenOnly(c, |out|, 0);
      var more, ctrl', extra' := OverreadsOnly(n.rest, out + Produces(n.token, out), expected);
      OneMore(n.token, more, out);
      Assoc(TokenBytes(n.token), Encode(more, |out + Produces(n.token, out)|), [ctrl', extra']);
      NothingExpanded(more, out + Produces(n.token, out));
      ts, ctrl, extra := [n.token] + more, ctrl', extra';
    }
  }

  lemma NothingExpanded(ts: seq<Token>, out: Str)
    requires AllWellFormed(ts, |out|)
    ensures ts == [] ==> Expand(ts, out) == out
  {
  }

  lemma {:induction false} CutOverreads(ts: seq<Token>, ctrl: byte, extra: byte, out: Str, expected: nat)
    requires AllWellFormed(ts, |out|) && 224 <= ctrl && (ts == [] ==> out != [])
    requires ts != [] ==> |Expand(ts, out)| <= expected
    ensures Overreads(Encode(ts, |out|) + [ctrl, extra], out, expected)
    decreases |ts|
  {
    if ts == [] {
      assert Encode(ts, |out|) + [ctrl, extra] == [ctrl, extra];
    } else {
      var t, next := ts[0], out + Produces(ts[0], out);
      var more := Encode(ts[1..], |next|);
      Assoc(TokenBytes(t), more, [ctrl, extra]);
      TokenInverse(t, |out|, more + [ctrl, extra], 0);
      hide NextToken, TokenBytes;
      ExpandGrows(ts[1..], next);
      CutOverreads(ts[1..], ctrl, extra, next, expected);
    }
  }

  lemma {:induction false} ExpandGrows(ts: seq<Token>, out: Str)
    requires AllWellFormed(ts, |out|)
    ensures |Expand(ts, out)| >= |out|
    decreases |ts|
  {
    if ts != [] {
      ExpandGrows(ts[1..], out + Produces(ts[0], out));
    }
  }

  // ---- the loop -----------------------------------------------------------------------------------

  /** The stream decompresses to exactly the declared number of bytes. */
  predicate Accepted(c: Str, expected: nat, beyond: byte) {
    && expected <= MAX_DECODED
    && Decompress(c, [], beyond).Done? && |Decompress(c, [], beyond).out| == expected
  }

  ghost predicate IsEncodingOf(c: Str, expected: nat) {
    expected <= MAX_DECODED && exists ts :: AllWellFormed(ts, 0) && Encode(ts, 0) == c && |Expand(ts, [])| == expected
  }

  /** Exactly the encodings of well-formed token sequences of that length are accepted, whatever the byte behind the
      stream; a stream that runs over its end is accepted exactly when that byte completes it to one. */
  lemma AcceptedIff(c: Str, expected: nat, beyond: byte)
    ensures Accepted(c, expected, beyond) <==>
      IsEncodingOf(if Overreads(c, [], expected) then c + [beyond] else c, expected)
  {
    if Overreads(c, [], expected) {
      AsIfThere(c, [], expected, beyond, 0);
      StraightIff(c + [beyond], expected, 0);
    } else {
      StraightIff(c, expected, beyond);
    }
  }

  lemma StraightIff(c: Str, expected: nat, beyond: byte)
    requires !Overreads(c, [], expected)
    ensures Accepted(c, expected, beyond) <==> IsEncodingOf(c, expected)
  {
    if Accepted(c, expected, beyond) {
      var ts := DecompressOnlyEncodings(c, [], beyond);
      assert AllWellFormed(ts, 0) && Encode(ts, 0) == c && |Expand(ts, [])| == expected;
    }
    forall ts | AllWellFormed(ts, 0) && Encode(ts, 0) == c ensures Decompress(c, [], beyond) == Done(Expand(ts, [])) {
      DecompressInvertsEncode(ts, [], beyond);
    }
  }

  /** The byte behind a stream matters to none but those. */
  lemma AcceptedIgnores(c: Str, expected: nat, b1: byte, b2: byte)
    requires !Overreads(c, [], expected)
    ensures Accepted(c, expected, b1) <==> Accepted(c, expected, b2)
    ensures Accepted(c, expected, b1) ==> Decompress(c, [], b1) == Decompress(c, [], b2)
  {
    StraightIff(c, expected, b1);
    StraightIff(c, expected, b2);
    if Accepted(c, expected, b1) {
      var ts := DecompressOnlyEncodings(c, [], b1);
      DecompressInvertsEncode(ts, [], b2);
    }
  }

  /** One literal and a back-reference cut after its length byte: what lies behind the stream decides. */
  lemma OverreadWitness()
    ensures var c: Str := [0x00, 0x61, 0xE0, 0x00];
      Overreads(c, [], 10) && Accepted(c, 10, 0) && !Accepted(c, 10, 1)
  {
    var c: Str := [0x00, 0x61, 0xE0, 0x00];
    assert c[1..2] == [0x61] && c[2..] == [0xE0, 0x00];
    var a: Str := [0x61];
    assert [] + a == a;
    assert NextToken(c, 0, 0) == NextToken(c, 0, 1) == Got(Literal(a), [0xE0, 0x00]);
    assert NextToken([0xE0, 0x00], 1, 0) == Got(Copy(9, 1), []);
    assert NextToken([0xE0, 0x00], 1, 1) == Stuck;
    assert Decompress([0xE0, 0x00], a, 0) == Done(a + Produces(Copy(9, 1), a));
    assert Decompress([0xE0, 0x00], a, 1) == Failed;
    assert Decompress(c, [], 0) == Decompress([0xE0, 0x00], a, 0);
    assert Decompress(c, [], 1) == Decompress([0xE0, 0x00], a, 1);
    assert Overreads([0xE0, 0x00], a, 10);
  }

  /** `over` tells whether the byte behind the stream was read. */
  method LzfDecompress(compressed: Str, expected: nat, beyond: byte) returns (ok: bool, output: Str, ghost over: bool)
    ensures ok <==> Accepted(compressed, expected, beyond)
    ensures ok ==> output == Decompress(compressed, [], beyond).out
    ensures over <==> expected <= MAX_DECODED && Overreads(compressed, [], expected)
  {
    if expected > MAX_DECODED {
      return false, [], false;
    }
    var out := new byte[expected];
    var n;
    ok, n, over := Run(compressed, out, beyond);
    if ok {
      ok := n == out.Length;
    }
    output := out[..];
    assert n == out.Length ==> out[..n] == out[..];
  }

  /** What is left of the stream; the cursor may have run one byte over its end. */
  ghost function Rest(c: Str, pos: nat): Str { if pos <= |c| then c[pos..] else [] }

  /** The loop over the tokens. */
  method Run(c: Str, out: array<byte>, beyond: byte) returns (ok: bool, n: nat, ghost over: bool)
    modifies out
    ensures n <= out.Length
    ensures ok ==> Decompress(c, [], beyond) == Done(out[..n])
    ensures !ok ==> Decompress(c, [], beyond).Failed? || |Decompress(c, [], beyond).out| > out.Length
    ensures over <==> Overreads(c, [], out.Length)
  {
    hide NextToken, Produces, Decompress, Overreads, Cut;
    var pos := 0;
    n := 0;
    over := false;
    ghost var done: Str := [];
    assert c[0..] == c && out[..0] == done;
    while pos < |c|
      invariant 0 <= pos && 0 <= n <= out.Length && done == out[..n]
      invariant Decompress(Rest(c, pos), done, beyond) == Decompress(c, [], beyond)
      invariant Overreads(c, [], out.Length) <==> over || Overreads(Rest(c, pos), done, out.Length)
      invariant over ==> pos >= |c|
    {
      var t, readable, pos', past := ReadToken(c, pos, n, beyond);
      Step(c[pos..], done, out.Length, beyond);
      over := past;
      if !readable || out.Length - n < Length(t) {
        return false, n, over;
      }
      Write(out, n, t);
      done := done + Produces(t, done);
      n := n + Length(t);
      pos := pos';
    }
    assert Rest(c, pos) == [];
    Finished(done, out.Length, beyond);
    ok := true;
  }

  lemma Finished(out: Str, expected: nat, beyond: byte)
    ensures Decompress([], out, beyond) == Done(out) && !Overreads([], out, expected)
  {
  }

  /** One token: if it cannot be read or does not fit, the stream is refused; otherwise it is expanded. */
  lemma Step(c: Str, out: Str, expected: nat, beyond: byte)
    requires c != []
    ensures var n := NextToken(c, |out|, beyond);
      if n.Stuck? || expected - |out| < Length(n.token)
      then
        && (Decompress(c, out, beyond).Failed? || |Decompress(c, out, beyond).out| > expected)
        && (Overreads(c, out, expected) <==> Cut(c, |out|))
      else
        && Decompress(c, out, beyond) == Decompress(n.rest, out + Produces(n.token, out), beyond)
        && (Cut(c, |out|) ==> n.rest == [] && Overreads(c, out, expected))
        && (!Cut(c, |out|) ==>
              (Overreads(c, out, expected) <==> Overreads(n.rest, out + Produces(n.token, out), expected)))
  {
    var n := NextToken(c, |out|, beyond);
    if !Cut(c, |out|) {
      BeyondIgnored(c, |out|, beyond, 0);
    }
    if n.Got? && Decompress(c, out, beyond).Done? {
      DecompressGrows(n.rest, out + Produces(n.token, out), beyond);
    }
  }

  /** The control byte and the length and offset bytes that follow it, as the source reads them: the end of the stream
      is looked for before the length byte, and not again before the offset byte. */
  method ReadToken(c: Str, pos0: nat, produced: nat, beyond: byte)
    returns (t: Token, ok: bool, pos: nat, ghost past: bool)
    requires pos0 < |c|
    ensures ok <==> NextToken(c[pos0..], produced, beyond).Got?
    ensures ok ==> pos0 < pos && NextToken(c[pos0..], produced, beyond) == Got(t, Rest(c, pos))
    ensures past <==> Cut(c[pos0..], produced)
    ensures ok ==> (past <==> pos > |c|)
  {
    pos := pos0;
    past := false;
    var ctrl: int := c[pos];
    pos := pos + 1;
    t := Literal([]);
    if ctrl < 32 {
      var literalLen := ctrl + 1;
      if |c| - pos < literalLen {
        return t, false, pos, past;
      }
      t := Literal(c[pos..pos + literalLen]);
      pos := pos + literalLen;
      assert c[pos0..][1..ctrl + 2] == t.bytes && c[pos0..][ctrl + 2..] == c[pos..];
      return t, true, pos, past;
    }
    var len := ctrl / 32;
    if pos >= |c| || produced == 0 {
      return t, false, pos, past;
    }
    if len == 7 {
      len := len + c[pos];
      pos := pos + 1;
    }
    var low := if pos < |c| then c[pos] else beyond;
    past := pos >= |c|;
    var offset := ctrl % 32 * 256 + low;
    pos := pos + 1;
    len := len + 2;
    if offset + 1 > produced {
      return t, false, pos, past;
    }
    t := Copy(len, offset + 1);
    assert !past ==> c[pos0..][if ctrl / 32 == 7 then 3 else 2..] == c[pos..];
    return t, true, pos, past;
  }

  method Write(out: array<byte>, n: nat, t: Token)
    requires n + Length(t) <= out.Length && WellFormed(t, n)
    modifies out
    ensures out[..n + Length(t)] == old(out[..n]) + Produces(t, old(out[..n]))
  {
    if t.Literal? {
      WriteLiteral(out, n, t.bytes);
    } else {
      CopyBack(out, n, t.len, t.distance);
    }
  }

  method WriteLiteral(out: array<byte>, n: nat, bytes: Str)
    requires n + |bytes| <= out.Length
    modifies out
    ensures out[..n + |bytes|] == old(out[..n]) + bytes
  {
    forall j | 0 <= j < |bytes| {
      out[n + j] := bytes[j];
    }
  }

  /** Byte by byte, so that a copy can read what it has just written. */
  method CopyBack(out: array<byte>, n: nat, len: nat, distance: nat)
    requires 1 <= distance <= n && n + len <= out.Length
    modifies out
    ensures out[..n] == old(out[..n])
    ensures forall j :: 0 <= j < len ==> out[n + j] == old(out[..n])[Source(n, distance, j)]
  {
    hide Source;
    ghost var before := out[..n];
    var i := 0;
    while i != len
      invariant 0 <= i <= len && out[..n] == before
      invariant forall j :: 0 <= j < i ==> out[n + j] == before[Source(n, distance, j)]
    {
      SourceStep(n, distance, i);
      assert i < distance ==> out[n - distance + i] == before[n - distance + i];
      out[n + i] := out[n - distance + i];
      i := i + 1;
    }
  }

  lemma SourceStep(n: nat, d: nat, i: nat)
    requires 1 <= d <= n
    ensures Source(n, d, i) == if i < d then n - d + i else Source(n, d, i - d)
  {
    if i >= d {
      Remainder(i - d, i / d - 1, d, i % d);
    }
  }
}
