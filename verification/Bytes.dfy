/**
 Bytes, big-endian integers, exclusive or, concatenation and optional values:
 the value-level vocabulary shared by the protocol models.
 */
module Bytes {

  type byte = x: int | 0 <= x < 256

  datatype Option<T> = None | Some(value: T)

  /** The number of values that fit into k bytes. */
  function Pow256(k: nat): (p: nat)
    ensures p > 0
  {
    if k == 0 then 1 else 256 * Pow256(k - 1)
  }

  /** The byte of n with weight 256 to the power of j. */
  function Digit(n: nat, j: nat): byte {
    if j == 0 then n % 256 else Digit(n / 256, j - 1)
  }

  /** The low k bytes of n, most significant first (htobe16buf, htobe32buf and htobe64buf for k = 2, 4, 8). */
  function ToBE(n: nat, k: nat): (s: seq<byte>)
    ensures |s| == k
  {
    seq(k, i requires 0 <= i < k => Digit(n, k - 1 - i))
  }

  lemma ToBESnoc(n: nat, k: nat)
    requires k > 0
    ensures ToBE(n, k) == ToBE(n / 256, k - 1) + [n % 256]
  {
    forall i | 0 <= i < k
      ensures ToBE(n, k)[i] == (ToBE(n / 256, k - 1) + [n % 256])[i]
    {
      assert ToBE(n, k)[i] == Digit(n, k - 1 - i);
      if i < k - 1 {
        assert ToBE(n / 256, k - 1)[i] == Digit(n / 256, k - 2 - i);
      }
    }
  }

  /** The number a big-endian byte sequence denotes (bufbe16toh, bufbe32toh and bufbe64toh). */
  function FromBE(s: seq<byte>): (n: nat)
    ensures n < Pow256(|s|)
  {
    if s == [] then 0 else FromBE(s[..|s| - 1]) * 256 + s[|s| - 1]
  }

  /** Writing and reading back keeps the low k bytes. */
  lemma {:induction false} BERoundTrip(n: nat, k: nat)
    ensures FromBE(ToBE(n, k)) == n % Pow256(k)
    ensures n < Pow256(k) ==> FromBE(ToBE(n, k)) == n
  {
    if k == 0 {
    } else {
      BERoundTrip(n / 256, k - 1);
      ToBESnoc(n, k);
      var s := ToBE(n, k);
      assert s[..k - 1] == ToBE(n / 256, k - 1);
      var p := Pow256(k - 1);
      ModSplit(n, p);
      if n < Pow256(k) {
        assert n / 256 < p;
      }
    }
  }

  lemma ModSplit(n: nat, p: nat)
    requires p > 0
    ensures n % (256 * p) == (n / 256) % p * 256 + n % 256
  {
    var q, r, h := n / 256 / p, n / 256 % p, n % 256;
    assert n / 256 == p * q + r;
    assert n == 256 * (p * q + r) + h;
    assert n == (256 * p) * q + (256 * r + h) by {
      assert 256 * (p * q) == (256 * p) * q;
    }
    assert r <= p - 1;
    assert 0 <= 256 * r + h < 256 * p;
    QuotientUnique(n, 256 * p, q, 256 * r + h);
  }

  lemma MulDistribSub(d: nat, a: nat, b: nat)
    ensures d * a - d * b == d * (a - b)
  {
  }

  lemma MulAtLeast(d: nat, a: int)
    requires a >= 1
    ensures d * a >= d
  {
  }

  lemma QuotientUnique(n: nat, d: nat, q: nat, r: nat)
    requires d > 0 && n == d * q + r && r < d
    ensures n % d == r
  {
    var q', r' := n / d, n % d;
    if q' < q {
      MulDistribSub(d, q, q');
      MulAtLeast(d, q - q');
    } else if q' > q {
      MulDistribSub(d, q', q);
      MulAtLeast(d, q' - q);
    }
  }

  /** The first byte is the most significant one. */
  lemma {:induction false} MostSignificantFirst(b: byte, rest: seq<byte>)
    ensures FromBE([b] + rest) == b * Pow256(|rest|) + FromBE(rest)
    decreases |rest|
  {
    var s, n := [b] + rest, |rest|;
    if n == 0 {
      assert s[..0] == [] && FromBE(s[..0]) == 0;
    } else {
      assert s[..n] == [b] + rest[..n - 1] && s[n] == rest[n - 1];
      MostSignificantFirst(b, rest[..n - 1]);
      TimesAssociates(b, Pow256(n - 1));
    }
  }

  lemma TimesAssociates(b: nat, p: nat)
    ensures b * p * 256 == b * (256 * p)
  {
  }

  /** Exclusive or of the low n bits. */
  function XorBits(a: nat, b: nat, n: nat): (x: nat)
    ensures n == 0 ==> x == 0
  {
    if n == 0 then 0 else 2 * XorBits(a / 2, b / 2, n - 1) + (a + b) % 2
  }

  function Pow2(n: nat): (p: nat)
    ensures p > 0
  {
    if n == 0 then 1 else 2 * Pow2(n - 1)
  }

  lemma LowBit(a: nat, b: nat, y: nat)
    ensures var x := 2 * y + (a + b) % 2; x / 2 == y && (x + b) % 2 == a % 2
  {
    var d := (a + b) % 2;
    assert d == 0 || d == 1;
    var q := (a + b) / 2;
    assert 2 * y + d + b == a + 2 * (y + b - q);
  }

  lemma {:induction false} XorBitsInvolutive(a: nat, b: nat, n: nat)
    requires a < Pow2(n)
    ensures XorBits(a, b, n) < Pow2(n)
    ensures XorBits(XorBits(a, b, n), b, n) == a
  {
    if n == 0 {
    } else {
      XorBitsInvolutive(a / 2, b / 2, n - 1);
      LowBit(a, b, XorBits(a / 2, b / 2, n - 1));
    }
  }

  lemma {:induction false} XorBitsCommutes(a: nat, b: nat, n: nat)
    ensures XorBits(a, b, n) == XorBits(b, a, n)
  {
    if n == 0 {
    } else {
      XorBitsCommutes(a / 2, b / 2, n - 1);
    }
  }

  /** A bit of the exclusive or is set if and only if exactly one of the two is. */
  lemma {:induction false} XorBit(a: nat, b: nat, n: nat, k: nat)
    requires k < n
    ensures Bit(XorBits(a, b, n), k) <==> Bit(a, k) != Bit(b, k)
  {
    LowBitOf(XorBits(a / 2, b / 2, n - 1), a, b);
    if k > 0 {
      XorBit(a / 2, b / 2, n - 1, k - 1);
    }
  }

  predicate Bit(a: nat, k: nat) { if k == 0 then a % 2 == 1 else Bit(a / 2, k - 1) }

  lemma LowBitOf(y: nat, a: nat, b: nat)
    ensures (2 * y + (a + b) % 2) / 2 == y
    ensures (2 * y + (a + b) % 2) % 2 == 1 <==> (a % 2 == 1) != (b % 2 == 1)
  {
  }

  function XorByte(a: byte, b: byte): (x: byte)
    ensures XorBits(x, b, 8) == a
  {
    XorBitsInvolutive(a, b, 8);
    XorBits(a, b, 8)
  }

  lemma XorByteInvolutive(a: byte, b: byte)
    ensures XorByte(XorByte(a, b), b) == a
    ensures XorByte(a, b) == XorByte(b, a)
  {
    XorBitsCommutes(a, b, 8);
  }

  /** Bytewise exclusive or of two sequences of the same length. */
  function Xor(a: seq<byte>, b: seq<byte>): (x: seq<byte>)
    requires |a| == |b|
    ensures |x| == |a|
  {
    seq(|a|, i requires 0 <= i < |a| => XorByte(a[i], b[i]))
  }

  lemma XorInvolutive(a: seq<byte>, b: seq<byte>)
    requires |a| == |b|
    ensures Xor(Xor(a, b), b) == a
    ensures Xor(a, b) == Xor(b, a)
  {
    forall i | 0 <= i < |a|
      ensures XorByte(XorByte(a[i], b[i]), b[i]) == a[i] && XorByte(a[i], b[i]) == XorByte(b[i], a[i])
    {
      XorByteInvolutive(a[i], b[i]);
    }
  }

  /** Concatenation of all parts, in order. */
  function Flatten<T>(parts: seq<seq<T>>): (s: seq<T>)
  {
    if parts == [] then [] else parts[0] + Flatten(parts[1..])
  }

  lemma SliceOfSlice<T>(s: seq<T>, lo: nat, hi: nat, i: nat, j: nat)
    requires lo <= hi <= |s| && i <= j <= hi - lo
    ensures s[lo..hi][i..j] == s[lo + i..lo + j]
  {
    var t := s[lo..hi];
    forall k | 0 <= k < j - i
      ensures t[i..j][k] == s[lo + i..lo + j][k]
    {
      assert t[i..j][k] == t[i + k] == s[lo + (i + k)];
    }
  }

  /** Sequences that agree on a range agree on its parts. */
  lemma SameSlice<T>(s: seq<T>, t: seq<T>, lo: nat, hi: nat, i: nat, j: nat)
    requires lo <= i <= j <= hi <= |s| && hi <= |t| && s[lo..hi] == t[lo..hi]
    ensures s[i..j] == t[i..j]
  {
    SliceOfSlice(s, lo, hi, i - lo, j - lo);
    SliceOfSlice(t, lo, hi, i - lo, j - lo);
  }

  /** The bytes are in b at the position. */
  ghost predicate Lies(b: seq<byte>, at: nat, bytes: seq<byte>) {
    at + |bytes| <= |b| && b[at..at + |bytes|] == bytes
  }

  lemma LiesParts(b: seq<byte>, at: nat, x: seq<byte>, y: seq<byte>)
    ensures Lies(b, at, x + y) <==> Lies(b, at, x) && Lies(b, at + |x|, y)
  {
    if Lies(b, at, x + y) {
      SliceOfSlice(b, at, at + |x + y|, 0, |x|);
      SliceOfSlice(b, at, at + |x + y|, |x|, |x + y|);
      assert (x + y)[0..|x|] == x && (x + y)[|x|..|x + y|] == y;
    }
  }

  ghost predicate Distinct<T>(ts: seq<T>) { forall i, j :: 0 <= i < j < |ts| ==> ts[i] != ts[j] }

  /** The places of the elements that keep accepts, in order. */
  ghost predicate Places<T>(all: seq<T>, keep: T -> bool, ks: seq<nat>) {
    && (forall i, j :: 0 <= i < j < |ks| ==> ks[i] < ks[j])
    && (forall k: nat :: k in ks <==> k < |all| && keep(all[k]))
  }

  lemma PlacesSnoc<T>(all: seq<T>, keep: T -> bool, ks: seq<nat>, x: T)
    requires Places(all, keep, ks)
    ensures Places(all + [x], keep, if keep(x) then ks + [|all|] else ks)
  {
    var more := ks + [|all|];
    forall k: nat ensures k in more <==> k in ks || k == |all| {
      assert more[|ks|] == |all|;
    }
    forall i | 0 <= i < |ks| ensures ks[i] < |all| {
      assert ks[i] in ks;
    }
  }

  lemma Append<T>(a: seq<T>, b: seq<T>, c: seq<T>)
    ensures a + b + c == a + (b + c)
  {
  }

  lemma {:induction false} FlattenConcat<T>(a: seq<seq<T>>, b: seq<seq<T>>)
    ensures Flatten(a + b) == Flatten(a) + Flatten(b)
  {
    if a == [] {
      assert a + b == b;
    } else {
      assert (a + b)[1..] == a[1..] + b;
      FlattenConcat(a[1..], b);
    }
  }

  lemma FlattenSnoc<T>(a: seq<seq<T>>, x: seq<T>)
    ensures Flatten(a + [x]) == Flatten(a) + x
  {
    FlattenConcat(a, [x]);
    assert Flatten([x]) == x;
  }

  /** What f makes of every element, in order. */
  function ConcatMap<T>(f: T -> seq<byte>, xs: seq<T>): seq<byte>
  {
    if xs == [] then [] else f(xs[0]) + ConcatMap(f, xs[1..])
  }

  lemma ConcatMapCons<T>(f: T -> seq<byte>, x: T, xs: seq<T>)
    ensures ConcatMap(f, [x] + xs) == f(x) + ConcatMap(f, xs)
  {
    assert ([x] + xs)[1..] == xs;
  }

  lemma {:induction false} ConcatMapAppend<T>(f: T -> seq<byte>, a: seq<T>, b: seq<T>)
    ensures ConcatMap(f, a + b) == ConcatMap(f, a) + ConcatMap(f, b)
  {
    if a == [] {
      assert a + b == b;
    } else {
      ConcatMapAppend(f, a[1..], b);
      assert (a + b)[1..] == a[1..] + b;
      Append(f(a[0]), ConcatMap(f, a[1..]), ConcatMap(f, b));
    }
  }

  /** A prefix of the parts concatenates to a prefix of the bytes. */
  lemma FlattenPrefix<T>(a: seq<seq<T>>, n: nat)
    requires n <= |a|
    ensures Flatten(a[..n]) <= Flatten(a)
  {
    assert a == a[..n] + a[n..];
    FlattenConcat(a[..n], a[n..]);
  }
}
