/** Bytes, byte strings, and fixed-width integers in both byte orders. */
module Bytes {
  import opened Arithmetic

  type byte = x: int | 0 <= x < 256

  /** EloqString, abstracted to its content. */
  type Str = seq<byte>

  datatype Option<T> = None | Some(value: T)

  function Pow256(k: nat): (r: nat)
    ensures r >= 1
  {
    if k == 0 then 1 else 256 * Pow256(k - 1)
  }

  lemma Pow256Values()
    ensures Pow256(1) == 0x100 && Pow256(2) == 0x1_0000 && Pow256(3) == 0x100_0000
    ensures Pow256(4) == 0x1_0000_0000 && Pow256(8) == 0x1_0000_0000_0000_0000
  {
  }

  /** The low k bytes of v, least significant first (memcpy of an unsigned integer). */
  function LE(k: nat, v: nat): (s: seq<byte>)
    ensures |s| == k
  {
    if k == 0 then [] else [v % 256] + LE(k - 1, v / 256)
  }

  function FromLE(s: seq<byte>): nat {
    if s == [] then 0 else s[0] + 256 * FromLE(s[1..])
  }

  lemma {:induction false} LERoundTrip(k: nat, v: nat)
    requires v < Pow256(k)
    ensures FromLE(LE(k, v)) == v
  {
    if k > 0 {
      LERoundTrip(k - 1, v / 256);
      assert LE(k, v)[1..] == LE(k - 1, v / 256);
    }
  }

  /** Byte i of the little-endian form has weight 256^i. */
  lemma {:induction false} LEAt(k: nat, v: nat, i: nat)
    requires i < k
    ensures LE(k, v)[i] == v / Pow256(i) % 256
  {
    if i > 0 {
      LEAt(k - 1, v / 256, i - 1);
      Quotients(v, Pow256(i - 1));
    }
  }

  /** Byte i of the big-endian form has weight 256^(k-1-i). */
  lemma {:induction false} BEAt(k: nat, v: nat, i: nat)
    requires i < k
    ensures BE(k, v)[i] == v / Pow256(k - 1 - i) % 256
  {
    if i < k - 1 {
      BEAt(k - 1, v / 256, i);
      Quotients(v, Pow256(k - 2 - i));
    }
  }

  lemma Quotients(v: nat, p: nat)
    requires p >= 1
    ensures v / 256 / p == v / (256 * p)
  {
    var a, q := v / 256, v / 256 / p;
    var r := 256 * (a - q * p) + v % 256;
    assert a == q * p + a % p;
    assert v == q * (256 * p) + r && 0 <= r < 256 * p;
    Apart(q, v / (256 * p), 256 * p, r, v % (256 * p));
  }

  lemma {:induction false} FromLEBound(s: seq<byte>)
    ensures FromLE(s) < Pow256(|s|)
  {
    if s != [] {
      FromLEBound(s[1..]);
    }
  }

  /** The low k bytes of v, most significant first. */
  function BE(k: nat, v: nat): (s: seq<byte>)
    ensures |s| == k
  {
    if k == 0 then [] else BE(k - 1, v / 256) + [v % 256]
  }

  function FromBE(s: seq<byte>): nat {
    if s == [] then 0 else 256 * FromBE(s[..|s| - 1]) + s[|s| - 1]
  }

  lemma {:induction false} BERoundTrip(k: nat, v: nat)
    requires v < Pow256(k)
    ensures FromBE(BE(k, v)) == v
  {
    if k > 0 {
      BERoundTrip(k - 1, v / 256);
      assert BE(k, v)[..k - 1] == BE(k - 1, v / 256);
    }
  }

  lemma {:induction false} FromBEBound(s: seq<byte>)
    ensures FromBE(s) < Pow256(|s|)
  {
    if s != [] {
      FromBEBound(s[..|s| - 1]);
    }
  }

  /** A byte string behind its 32-bit little-endian length. */
  function Sized(s: Str): seq<byte> { LE(4, |s|) + s }

  function AllSized(l: seq<Str>): seq<byte> {
    if l == [] then [] else Sized(l[0]) + AllSized(l[1..])
  }

  function SizedLength(l: seq<Str>): nat {
    if l == [] then 0 else 4 + |l[0]| + SizedLength(l[1..])
  }

  lemma {:induction false} AllSizedLength(l: seq<Str>)
    ensures |AllSized(l)| == SizedLength(l)
  {
    if l != [] {
      AllSizedLength(l[1..]);
    }
  }

  lemma {:induction false} SizedLengthConcat(a: seq<Str>, b: seq<Str>)
    ensures SizedLength(a + b) == SizedLength(a) + SizedLength(b)
  {
    if a == [] {
      assert a + b == b;
    } else {
      SizedLengthConcat(a[1..], b);
      assert (a + b)[1..] == a[1..] + b;
    }
  }

  lemma {:induction false} SizedBounds(l: seq<Str>)
    ensures 4 * |l| <= SizedLength(l) && forall i :: 0 <= i < |l| ==> |l[i]| <= SizedLength(l)
  {
    if l != [] {
      SizedBounds(l[1..]);
      assert forall i :: 1 <= i < |l| ==> l[i] == l[1..][i - 1];
    }
  }

  lemma SizedSnoc(l: seq<Str>, i: nat)
    requires i < |l|
    ensures SizedLength(l[..i + 1]) == SizedLength(l[..i]) + 4 + |l[i]|
  {
    SizedLengthConcat(l[..i], [l[i]]);
    assert l[..i + 1] == l[..i] + [l[i]];
  }

  lemma Assoc(x: Str, y: Str, z: Str)
    ensures x + (y + z) == (x + y) + z
  {
  }

  lemma {:induction false} AllSizedConcat(a: seq<Str>, b: seq<Str>)
    ensures AllSized(a + b) == AllSized(a) + AllSized(b)
  {
    if a == [] {
      assert a + b == b;
    } else {
      assert (a + b)[1..] == a[1..] + b && (a + b)[0] == a[0];
      assert AllSized(a + b) == Sized(a[0]) + AllSized(a[1..] + b);
      hide *;
      AllSizedConcat(a[1..], b);
      Assoc(Sized(a[0]), AllSized(a[1..]), AllSized(b));
      assert AllSized(a) == Sized(a[0]) + AllSized(a[1..]) by { AllSizedUnfold(a); }
    }
  }

  lemma AllSizedUnfold(l: seq<Str>)
    requires l != []
    ensures AllSized(l) == Sized(l[0]) + AllSized(l[1..])
  {
  }

  predicate Fits32(l: seq<Str>) {
    |l| < 0x1_0000_0000 && forall i :: 0 <= i < |l| ==> |l[i]| < 0x1_0000_0000
  }
}
