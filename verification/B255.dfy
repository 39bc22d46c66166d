/** Base-255 namespace ids, which leave the byte ':' free as a delimiter (src/b255.cpp:11-58), and the key prefixes
    built from them (include/namespace/prefix.h). */
module B255 {
  import opened Bytes

  const DELIMITER: byte := ':' as int

  const MAX_ID: nat := 0xFFFF_FFFF_FFFF_FFFF

  function Digit(c: byte): nat { if c < 58 then c else c - 1 }

  function Glyph(digit: nat): byte
    requires digit < 255
  {
    if digit < 58 then digit else digit + 1
  }

  predicate NoDelimiter(s: seq<byte>) { DELIMITER !in s }

  function Num(s: seq<byte>): nat {
    if s == [] then 0 else 255 * Num(s[..|s| - 1]) + Digit(s[|s| - 1])
  }

  /** No superfluous leading zero digit. */
  predicate Canonical(s: seq<byte>) { s == [0] || (s != [] && s[0] != 0) }

  // ---- numbers and strings ----------------------------------------------------------------------

  lemma {:induction false} NumUnfold(s: seq<byte>)
    requires s != []
    ensures Num(s) == Digit(s[0]) * Power(|s| - 1) + Num(s[1..])
  {
    var n := |s| - 1;
    if n == 0 {
      assert s[..0] == [] == s[1..];
    } else {
      NumUnfold(s[..n]);
      assert s[..n][1..] == s[1..][..n - 1];
      Scale(Digit(s[0]), Power(n - 1));
    }
  }

  function Power(n: nat): (r: nat)
    ensures r >= 1
  {
    if n == 0 then 1 else 255 * Power(n - 1)
  }

  lemma Scale(d: nat, p: nat)
    ensures 255 * (d * p) == d * (255 * p)
  {
  }

  lemma {:induction false} NumBound(s: seq<byte>)
    requires NoDelimiter(s)
    ensures Num(s) < Power(|s|)
  {
    if s != [] {
      NumBound(s[..|s| - 1]);
      assert s[|s| - 1] != DELIMITER;
    }
  }

  lemma {:induction false} LeadingDigit(s: seq<byte>)
    requires s != [] && s[0] != 0
    ensures Num(s) >= Power(|s| - 1)
    decreases |s|
  {
    if |s| > 1 {
      LeadingDigit(s[..|s| - 1]);
    }
  }

  lemma SameDigit(x: int, c: byte, y: int, d: byte)
    requires c != DELIMITER && d != DELIMITER && 255 * x + Digit(c) == 255 * y + Digit(d)
    ensures x == y && c == d
  {
  }

  /** The digits are the bytes other than the delimiter, in their order. */
  lemma DigitsInOrder(c: byte, d: byte)
    requires c != DELIMITER && d != DELIMITER
    ensures Digit(c) < 255 && (c < d <==> Digit(c) < Digit(d))
    ensures Digit(Glyph(Digit(c))) == Digit(c) && Glyph(Digit(c)) == c
  {
  }

  lemma {:induction false} NumInjective(a: seq<byte>, b: seq<byte>)
    requires |a| == |b| && NoDelimiter(a) && NoDelimiter(b) && Num(a) == Num(b)
    ensures a == b
  {
    if a != [] {
      var n := |a| - 1;
      assert a[n] != DELIMITER && b[n] != DELIMITER;
      SameDigit(Num(a[..n]), a[n], Num(b[..n]), b[n]);
      hide Num;
      NumInjective(a[..n], b[..n]);
      assert a == a[..n] + [a[n]] && b == b[..n] + [b[n]];
    }
  }

  lemma {:induction false} PowerMonotone(m: nat, n: nat)
    requires m <= n
    ensures Power(m) <= Power(n)
  {
    if m < n {
      PowerMonotone(m, n - 1);
    }
  }

  /** An id has one canonical spelling. */
  lemma CanonicalUnique(a: seq<byte>, b: seq<byte>)
    requires Canonical(a) && Canonical(b) && NoDelimiter(a) && NoDelimiter(b) && Num(a) == Num(b)
    ensures a == b
  {
    if |a| < |b| {
      LongerIsLarger(a, b);
    } else if |b| < |a| {
      LongerIsLarger(b, a);
    } else {
      NumInjective(a, b);
    }
  }

  lemma LongerIsLarger(a: seq<byte>, b: seq<byte>)
    requires a != [] && |a| < |b| && Canonical(b) && NoDelimiter(a)
    ensures Num(a) < Num(b)
  {
    NumBound(a);
    LeadingDigit(b);
    PowerMonotone(|a|, |b| - 1);
  }

  // ---- the codec --------------------------------------------------------------------------------

  lemma PowerValues()
    ensures Power(9) > MAX_ID
  {
    assert Power(4) == 4228250625;
    assert Power(8) == 17878103347812890625;
  }

  method Encode(id: nat) returns (s: seq<byte>)
    requires id <= MAX_ID
    ensures 1 <= |s| <= 9 && NoDelimiter(s) && Canonical(s) && Num(s) == id
  {
    hide Pending, Num, Power;
    NothingWritten(id);
    if id == 0 {
      return [0];
    }
    var buf := new byte[9];
    var pos := 9;
    var temp: nat := id;
    assert buf[9..] == [];
    while temp > 0
      invariant 0 <= pos <= 9 && Pending(temp, buf[pos..], id)
    {
      var digit := temp % 255;
      ghost var tail := buf[pos..];
      Prepended(temp, tail, id);
      pos := pos - 1;
      buf[pos] := Glyph(digit);
      assert buf[pos..] == [Glyph(digit)] + tail;
      temp := temp / 255;
    }
    s := buf[pos..];
    AllWritten(s, id);
  }

  lemma NothingWritten(id: nat)
    requires id <= MAX_ID
    ensures if id == 0 then Num([0]) == 0 else Pending(id, [], id)
  {
    PowerValues();
  }

  lemma AllWritten(s: seq<byte>, id: nat)
    requires Pending(0, s, id)
    ensures 1 <= |s| <= 9 && NoDelimiter(s) && Canonical(s) && Num(s) == id
  {
  }

  /** The digits written so far, and the number still to be written in front of them. */
  ghost predicate Pending(temp: nat, tail: seq<byte>, id: nat) {
    && |tail| <= 9 && temp < Power(9 - |tail|)
    && NoDelimiter(tail)
    && temp * Power(|tail|) + Num(tail) == id
    && (temp == 0 ==> tail != [] && tail[0] != 0)
  }

  lemma PowerStep(temp: nat, n: nat)
    requires 0 < temp < Power(n)
    ensures n > 0 && temp / 255 < Power(n - 1)
  {
  }

  /** One turn of the loop: the lowest digit moves to the front of the string. */
  lemma Prepended(temp: nat, tail: seq<byte>, id: nat)
    requires temp > 0 && Pending(temp, tail, id)
    ensures |tail| < 9 && Pending(temp / 255, [Glyph(temp % 255)] + tail, id)
  {
    PowerStep(temp, 9 - |tail|);
    var longer := [Glyph(temp % 255)] + tail;
    NumUnfold(longer);
    assert longer[1..] == tail;
    DigitMoves(temp, Power(|tail|));
  }

  lemma DigitMoves(temp: nat, p: nat)
    ensures temp * p == temp / 255 * (255 * p) + temp % 255 * p
  {
    assert temp == temp / 255 * 255 + temp % 255;
    calc {
      temp * p;
      (temp / 255 * 255 + temp % 255) * p;
      temp / 255 * 255 * p + temp % 255 * p;
    }
  }

  /** A string is refused exactly when it is empty, longer than nine bytes, holds the delimiter or denotes more
      than 64 bits. */
  method Decode(s: seq<byte>) returns (r: Option<nat>)
    ensures r.Some? <==> 1 <= |s| <= 9 && NoDelimiter(s) && Num(s) <= MAX_ID
    ensures r.Some? ==> r.value == Num(s)
  {
    if s == [] || |s| > 9 {
      return None;
    }
    var id: nat := 0;
    for k := 0 to |s|
      invariant NoDelimiter(s[..k]) && id == Num(s[..k]) <= MAX_ID
    {
      if s[k] == DELIMITER {
        return None;
      }
      var digit := Digit(s[k]);
      assert s[..k + 1][..k] == s[..k];
      if id > (MAX_ID - digit) / 255 {
        NumGrows(s, k + 1);
        return None;
      }
      id := id * 255 + digit;
      assert s[..k + 1] == s[..k] + [s[k]];
    }
    assert s[..|s|] == s;
    return Some(id);
  }

  lemma {:induction false} NumGrows(s: seq<byte>, k: nat)
    requires k <= |s|
    ensures Num(s[..k]) <= Num(s)
    decreases |s|
  {
    if k < |s| {
      NumGrows(s[..|s| - 1], k);
      assert s[..|s| - 1][..k] == s[..k];
    } else {
      assert s[..k] == s;
    }
  }

  method EncodeThenDecode(id: nat) returns (r: Option<nat>)
    requires id <= MAX_ID
    ensures r == Some(id)
  {
    var s := Encode(id);
    r := Decode(s);
  }

  /** Decoding forgets leading zero digits: encoding again gives the string back exactly when it had none. */
  method DecodeThenEncode(s: seq<byte>) returns (r: Option<seq<byte>>)
    ensures r.Some? <==> 1 <= |s| <= 9 && NoDelimiter(s) && Num(s) <= MAX_ID
    ensures r.Some? ==> (r.value == s <==> Canonical(s))
  {
    var id := Decode(s);
    if id == None {
      return None;
    }
    var t := Encode(id.value);
    if Canonical(s) {
      CanonicalUnique(s, t);
    }
    return Some(t);
  }

  /** Two strings for the id 1. */
  lemma LeadingZeroWitness()
    ensures Num([0, 1]) == Num([1]) == 1 && NoDelimiter([0, 1]) && !Canonical([0, 1])
  {
    assert [0, 1][..1] == [0] && [0][..0] == [] && [1][..0] == [];
  }

  // ---- prefixes ---------------------------------------------------------------------------------

  method Prefix(id: nat) returns (p: seq<byte>)
    requires id <= MAX_ID
    ensures IsPrefixOf(id, p)
  {
    p := Encode(id);
    assert (p + [DELIMITER])[..|p|] == p;
    p := p + [DELIMITER];
  }

  /** The prefix of a namespace: its canonical spelling and the delimiter. */
  ghost predicate IsPrefixOf(id: nat, p: seq<byte>) {
    && p != [] && p[|p| - 1] == DELIMITER
    && NoDelimiter(p[..|p| - 1]) && Canonical(p[..|p| - 1]) && Num(p[..|p| - 1]) == id
  }

  lemma SameHead(x: seq<byte>, y: seq<byte>, s: seq<byte>, t: seq<byte>)
    requires NoDelimiter(x) && NoDelimiter(y)
    requires x + [DELIMITER] + s == y + [DELIMITER] + t
    ensures x == y && s == t
  {
    var l := x + [DELIMITER] + s;
    assert l[..|x|] == x;
    FirstDelimiter(l, y, t, |x|);
    assert l[|x| + 1..] == s;
  }

  /** Keys under different namespaces never collide. */
  lemma NamespacesAreDisjoint(a: nat, p: seq<byte>, key1: seq<byte>, b: nat, q: seq<byte>, key2: seq<byte>)
    requires IsPrefixOf(a, p) && IsPrefixOf(b, q) && a != b
    ensures p + key1 != q + key2
  {
    if p + key1 == q + key2 {
      var x, y := p[..|p| - 1], q[..|q| - 1];
      assert p == x + [DELIMITER] && q == y + [DELIMITER];
      SameHead(x, y, key1, key2);
    }
  }

  method MakePrefix(ns: seq<byte>, epoch: nat) returns (p: seq<byte>)
    requires epoch <= MAX_ID
    ensures exists e :: 1 <= |e| <= 9 && NoDelimiter(e) && Num(e) == epoch && p == ns + [DELIMITER] + (e + [DELIMITER])
  {
    var e := Encode(epoch);
    p := ns + [DELIMITER] + (e + [DELIMITER]);
  }

  /** string_view::find: the first delimiter at or after `from`, or the length. */
  method Find(s: seq<byte>, from: nat) returns (i: nat)
    requires from <= |s|
    ensures from <= i <= |s| && NoDelimiter(s[from..i])
    ensures i < |s| ==> s[i] == DELIMITER
  {
    i := from;
    while i < |s| && s[i] != DELIMITER
      invariant from <= i <= |s| && NoDelimiter(s[from..i])
    {
      assert s[from..i + 1] == s[from..i] + [s[i]];
      i := i + 1;
    }
  }

  datatype Key = Key(ns: seq<byte>, epoch: nat, user: seq<byte>)

  /** What the parser may answer: the namespace and the epoch are free of delimiters, and the epoch is a number. */
  ghost predicate Parses(full: seq<byte>, key: Key) {
    exists e :: full == key.ns + [DELIMITER] + (e + [DELIMITER] + key.user) && EpochIs(e, key.epoch)
      && key.ns != [] && NoDelimiter(key.ns)
  }

  predicate EpochIs(e: seq<byte>, epoch: nat) {
    1 <= |e| <= 9 && NoDelimiter(e) && Num(e) == epoch <= MAX_ID
  }

  lemma ParsesUnique(full: seq<byte>, k1: Key, k2: Key)
    requires Parses(full, k1) && Parses(full, k2)
    ensures k1 == k2
  {
    var e1 :| full == k1.ns + [DELIMITER] + (e1 + [DELIMITER] + k1.user) && EpochIs(e1, k1.epoch);
    var e2 :| full == k2.ns + [DELIMITER] + (e2 + [DELIMITER] + k2.user) && EpochIs(e2, k2.epoch);
    SameHead(k1.ns, k2.ns, e1 + [DELIMITER] + k1.user, e2 + [DELIMITER] + k2.user);
    SameHead(e1, e2, k1.user, k2.user);
  }

  method Parse(full: seq<byte>) returns (r: Option<Key>)
    ensures r.Some? ==> Parses(full, r.value)
    ensures r.None? ==> forall k :: !Parses(full, k)
  {
    var delim1 := Find(full, 0);
    assert full == full[0..delim1] + full[delim1..];
    if delim1 == |full| || delim1 <= 0 {
      forall k ensures !Parses(full, k) {
        if Parses(full, k) {
          NamespaceEnds(full, k, delim1);
        }
      }
      return None;
    }
    assert full[delim1..] == [DELIMITER] + full[delim1 + 1..];
    var start := delim1 + 1;
    var delim2 := Find(full, start);
    var e := full[start..delim2];
    if delim2 == |full| || delim2 <= start {
      forall k ensures !Parses(full, k) {
        if Parses(full, k) {
          EpochEnds(full, k, delim1, delim2);
        }
      }
      return None;
    }
    var epoch := Decode(e);
    if epoch == None {
      forall k ensures !Parses(full, k) {
        if Parses(full, k) {
          EpochEnds(full, k, delim1, delim2);
        }
      }
      return None;
    }
    assert full == full[0..delim1] + [DELIMITER] + (e + [DELIMITER] + full[delim2 + 1..]);
    assert EpochIs(e, epoch.value);
    return Some(Key(full[0..delim1], epoch.value, full[delim2 + 1..]));
  }

  /** The first delimiter found is the one after a head without delimiters. */
  lemma FirstDelimiter(s: seq<byte>, head: seq<byte>, tail: seq<byte>, i: nat)
    requires s == head + [DELIMITER] + tail && NoDelimiter(head)
    requires i <= |s| && NoDelimiter(s[..i]) && (i < |s| ==> s[i] == DELIMITER)
    ensures i == |head| && s[..i] == head && s[i + 1..] == tail
  {
    assert forall j :: 0 <= j < i ==> s[j] == s[..i][j] != DELIMITER;
    assert forall j :: 0 <= j < |head| ==> s[j] == head[j] != DELIMITER;
    assert s[|head|] == DELIMITER;
  }

  lemma NamespaceEnds(full: seq<byte>, k: Key, delim1: nat)
    requires Parses(full, k) && delim1 <= |full| && NoDelimiter(full[0..delim1])
    requires delim1 < |full| ==> full[delim1] == DELIMITER
    ensures delim1 == |k.ns| > 0 && delim1 < |full|
  {
    var e :| full == k.ns + [DELIMITER] + (e + [DELIMITER] + k.user) && EpochIs(e, k.epoch);
    assert full[..delim1] == full[0..delim1];
    FirstDelimiter(full, k.ns, e + [DELIMITER] + k.user, delim1);
  }

  lemma EpochEnds(full: seq<byte>, k: Key, delim1: nat, delim2: nat)
    requires Parses(full, k) && delim1 < delim2 <= |full| && NoDelimiter(full[0..delim1])
    requires full[delim1] == DELIMITER && NoDelimiter(full[delim1 + 1..delim2])
    requires delim2 < |full| ==> full[delim2] == DELIMITER
    ensures delim2 < |full| && EpochIs(full[delim1 + 1..delim2], k.epoch)
  {
    var e :| full == k.ns + [DELIMITER] + (e + [DELIMITER] + k.user) && EpochIs(e, k.epoch);
    assert full[..delim1] == full[0..delim1];
    FirstDelimiter(full, k.ns, e + [DELIMITER] + k.user, delim1);
    var rest := full[delim1 + 1..];
    assert rest[..delim2 - delim1 - 1] == full[delim1 + 1..delim2];
    FirstDelimiter(rest, e, k.user, delim2 - delim1 - 1);
  }

  /** A key built under a prefix parses back into its parts. */
  method MakeThenParse(ns: seq<byte>, epoch: nat, user: seq<byte>) returns (r: Option<Key>)
    requires ns != [] && NoDelimiter(ns) && epoch <= MAX_ID
    ensures r == Some(Key(ns, epoch, user))
  {
    var p := MakePrefix(ns, epoch);
    ghost var e :| 1 <= |e| <= 9 && NoDelimiter(e) && Num(e) == epoch && p == ns + [DELIMITER] + (e + [DELIMITER]);
    assert p + user == ns + [DELIMITER] + (e + [DELIMITER] + user);
    assert EpochIs(e, epoch);
    assert Parses(p + user, Key(ns, epoch, user));
    r := Parse(p + user);
    ParsesUnique(p + user, Key(ns, epoch, user), r.value);
  }

  // ---- range scans ------------------------------------------------------------------------------

  /** Byte-wise lexicographic order. */
  predicate Before(a: seq<byte>, b: seq<byte>) {
    b != [] && (a == [] || a[0] < b[0] || (a[0] == b[0] && Before(a[1..], b[1..])))
  }

  /** The keys from `prefix` up to, not including, the result are exactly the keys that start with `prefix`; an
      empty result means that there is no upper limit. */
  method MakePrefixNext(prefix: seq<byte>) returns (next: seq<byte>)
    ensures next == [] <==> forall i :: 0 <= i < |prefix| ==> prefix[i] == 255
    ensures forall key :: prefix <= key <==> !Before(key, prefix) && (next == [] || Before(key, next))
  {
    if prefix == [] {
      return [];
    }
    next := prefix;
    var i := |next| - 1;
    while i >= 0
      invariant -1 <= i < |next| && next == prefix
      invariant forall j :: i < j < |prefix| ==> prefix[j] == 255
    {
      var c := next[i];
      if c != 255 {
        next := next[i := c + 1];
        next := next[..i + 1];
        forall key ensures prefix <= key <==> !Before(key, prefix) && Before(key, next) {
          Successor(prefix, i, next, key);
        }
        return;
      }
      i := i - 1;
    }
    next := [];
    forall key ensures prefix <= key <==> !Before(key, prefix) {
      NoSuccessor(prefix, key);
    }
  }

  lemma {:induction false} NoSuccessor(prefix: seq<byte>, key: seq<byte>)
    requires forall j :: 0 <= j < |prefix| ==> prefix[j] == 255
    ensures prefix <= key <==> !Before(key, prefix)
  {
    if prefix != [] && key != [] {
      NoSuccessor(prefix[1..], key[1..]);
      PrefixStep(prefix, key);
    }
  }

  lemma PrefixStep(p: seq<byte>, key: seq<byte>)
    requires p != [] && key != []
    ensures p <= key <==> p[0] == key[0] && p[1..] <= key[1..]
  {
    if p[0] == key[0] && p[1..] <= key[1..] {
      forall j | 0 <= j < |p| ensures p[j] == key[j] {
        if j > 0 {
          assert p[1..][j - 1] == key[1..][j - 1];
        }
      }
    }
  }

  lemma {:induction false} Successor(prefix: seq<byte>, i: nat, next: seq<byte>, key: seq<byte>)
    requires i < |prefix| && prefix[i] < 255
    requires forall j :: i < j < |prefix| ==> prefix[j] == 255
    requires next == prefix[..i] + [prefix[i] + 1]
    ensures prefix <= key <==> !Before(key, prefix) && Before(key, next)
    decreases i
  {
    if key != [] {
      PrefixStep(prefix, key);
      if i == 0 {
        assert next[1..] == [];
        NoSuccessor(prefix[1..], key[1..]);
      } else {
        assert next[1..] == prefix[1..][..i - 1] + [prefix[1..][i - 1] + 1];
        Successor(prefix[1..], i - 1, next[1..], key[1..]);
      }
    }
  }
}
