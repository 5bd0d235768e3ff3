/**
 Fragment acknowledgements: a bitfield of seven fragments per byte, the top bit
 saying that another byte follows.
 */
module SsuAcks {
  import opened Bytes

  /** The bytes SendFragmentAck writes for a fragment number: n / 7 bytes of 0x80, then one bit. */
  function EncodeAck(n: nat): (r: seq<byte>)
    ensures |r| == n / 7 + 1
  {
    seq<byte>(n / 7, _ => 0x80) + [Bit(n % 7)]
  }

  function Bit(j: nat): byte
    requires j < 7
  {
    [1, 2, 4, 8, 16, 32, 64][j]
  }

  predicate HasBit(bits: byte, j: nat)
    requires j < 7
  {
    bits / Bit(j) % 2 == 1
  }

  /** The fragments one byte acknowledges, numbered from fragment on. */
  function BitsOf(bits: byte, fragment: nat): set<nat> {
    set j | 0 <= j < 7 && HasBit(bits, j) :: fragment + j
  }

  /** The fragments the do-while loop of ProcessAcks takes for acknowledged. */
  function DecodeAck(buf: seq<byte>, fragment: nat): set<nat> {
    if buf == [] then {} else
      var bits := buf[0] % 0x80;
      var more := buf[0] >= 0x80;
      (if bits != 0 then BitsOf(bits, fragment) else {}) +
      if more then DecodeAck(buf[1..], if bits != 0 then fragment + 7 else fragment) else {}
  }

  /**
   The loop of ProcessAcks over one bitfield.  kept says which fragments are still held for resending; the counter moves
   on only after a byte with some bit set.
   */
  method ProcessBitfield(buf: seq<byte>, kept: seq<bool>) returns (left: seq<bool>)
    requires exists i :: 0 <= i < |buf| && buf[i] < 0x80
    ensures |left| == |kept|
    ensures forall i :: 0 <= i < |kept| ==> (left[i] <==> kept[i] && i !in DecodeAck(buf, 0))
    ensures forall i :: 0 <= i < |kept| ==> (left[i] <==> kept[i] && !Named(buf, 0, i))
  {
    left := kept;
    forall i: nat ensures i in DecodeAck(buf, 0) <==> Named(buf, 0, i) {
      DecodesExactly(buf, 0, i);
    }
    var pos, fragment := 0, 0;
    var isNonLast := true;
    ghost var done: set<nat> := {};
    while isNonLast
      invariant 0 <= pos <= |buf| && |left| == |kept|
      invariant isNonLast ==> exists i :: pos <= i < |buf| && buf[i] < 0x80
      invariant DecodeAck(buf, 0) == done + if isNonLast then DecodeAck(buf[pos..], fragment) else {}
      invariant forall i :: 0 <= i < |kept| ==> (left[i] <==> kept[i] && i !in done)
      decreases |buf| - pos, isNonLast
    {
      isNonLast := buf[pos] >= 0x80;
      var bitfield := buf[pos] % 0x80;
      if bitfield != 0 {
        ghost var first := fragment;
        left := ClearBits(left, bitfield, fragment);
        done := done + BitsOf(bitfield, fragment);
        fragment := fragment + 7;
      }
      assert buf[pos..][1..] == buf[pos + 1..];
      pos := pos + 1;
    }
  }

  /** The inner loop over the seven bits of a byte. */
  method ClearBits(kept: seq<bool>, bits: byte, fragment: nat) returns (left: seq<bool>)
    ensures |left| == |kept|
    ensures forall i :: 0 <= i < |kept| ==> (left[i] <==> kept[i] && i !in BitsOf(bits, fragment))
  {
    left := kept;
    var j := 0;
    while j < 7
      invariant 0 <= j <= 7 && |left| == |kept|
      invariant forall i :: 0 <= i < |kept| ==>
                  (left[i] <==> kept[i] && !(fragment <= i < fragment + j && HasBit(bits, i - fragment)))
    {
      if HasBit(bits, j) && fragment + j < |left| {
        left := left[fragment + j := false];
      }
      j := j + 1;
    }
    forall i | 0 <= i < |kept|
      ensures i in BitsOf(bits, fragment) <==> fragment <= i < fragment + 7 && HasBit(bits, i - fragment)
    {
      if fragment <= i < fragment + 7 && HasBit(bits, i - fragment) {
        assert fragment + (i - fragment) == i;
      }
    }
  }

  /** The p-th byte is part of the bitfield: all before it say that another one follows. */
  predicate InField(buf: seq<byte>, p: nat) { p < |buf| && forall q :: 0 <= q < p ==> buf[q] >= 0x80 }

  /** How many of the first p bytes have some bit set. */
  function Filled(buf: seq<byte>, p: nat): (n: nat)
    requires p <= |buf|
  {
    if p == 0 then 0 else Filled(buf, p - 1) + if buf[p - 1] % 0x80 != 0 then 1 else 0
  }

  lemma {:induction false} FilledCons(buf: seq<byte>, p: nat)
    requires 0 < p <= |buf|
    ensures Filled(buf, p) == (if buf[0] % 0x80 != 0 then 1 else 0) + Filled(buf[1..], p - 1)
  {
    if p > 1 {
      FilledCons(buf, p - 1);
      assert buf[1..][p - 2] == buf[p - 1];
    }
  }

  /** Bit j of the p-th byte of a bitfield stands for the j-th fragment after seven for every earlier byte with bits. */
  ghost predicate Names(buf: seq<byte>, fragment: nat, i: nat, p: nat, j: nat) {
    InField(buf, p) && j < 7 && HasBit(buf[p] % 0x80, j) && i == fragment + 7 * Filled(buf, p) + j
  }

  lemma NoBits(j: nat)
    requires j < 7
    ensures !HasBit(0, j)
  {
  }

  lemma NamesNext(buf: seq<byte>, fragment: nat, i: nat, p: nat, j: nat)
    requires buf != [] && p > 0
    ensures Names(buf, fragment, i, p, j)
        <==> buf[0] >= 0x80 && Names(buf[1..], if buf[0] % 0x80 != 0 then fragment + 7 else fragment, i, p - 1, j)
  {
    if p < |buf| {
      FilledCons(buf, p);
      assert buf[1..][p - 1] == buf[p];
      assert InField(buf, p) ==> InField(buf[1..], p - 1) by {
        forall q | 0 <= q < p - 1 ensures buf[1..][q] == buf[q + 1] {
        }
      }
      if buf[0] >= 0x80 && InField(buf[1..], p - 1) {
        forall q | 0 <= q < p ensures buf[q] >= 0x80 {
          assert q > 0 ==> buf[1..][q - 1] == buf[q];
        }
      }
    }
  }

  /** Some bit of the bitfield stands for fragment i. */
  ghost predicate Named(buf: seq<byte>, fragment: nat, i: nat) { exists p: nat, j: nat :: Names(buf, fragment, i, p, j) }

  lemma NamedFirst(buf: seq<byte>, fragment: nat, i: nat)
    requires buf != [] && i in BitsOf(buf[0] % 0x80, fragment)
    ensures Named(buf, fragment, i)
  {
    var j: nat :| j < 7 && HasBit(buf[0] % 0x80, j) && i == fragment + j;
    assert Names(buf, fragment, i, 0, j);
  }

  lemma NamedLater(buf: seq<byte>, fragment: nat, i: nat, next: nat)
    requires buf != [] && buf[0] >= 0x80 && next == (if buf[0] % 0x80 != 0 then fragment + 7 else fragment)
    requires Named(buf[1..], next, i)
    ensures Named(buf, fragment, i)
  {
    var p: nat, j: nat :| Names(buf[1..], next, i, p, j);
    NamesNext(buf, fragment, i, p + 1, j);
  }

  lemma NamedWhere(buf: seq<byte>, fragment: nat, i: nat, next: nat)
    requires buf != [] && next == (if buf[0] % 0x80 != 0 then fragment + 7 else fragment) && Named(buf, fragment, i)
    ensures (buf[0] % 0x80 != 0 && i in BitsOf(buf[0] % 0x80, fragment)) || (buf[0] >= 0x80 && Named(buf[1..], next, i))
  {
    var p: nat, j: nat :| Names(buf, fragment, i, p, j);
    if p > 0 {
      NamesNext(buf, fragment, i, p, j);
    } else {
      NoBits(j);
    }
  }

  /** Exactly the fragments that some bit of the bitfield stands for are taken for acknowledged. */
  lemma {:induction false} DecodesExactly(buf: seq<byte>, fragment: nat, i: nat)
    ensures i in DecodeAck(buf, fragment) <==> Named(buf, fragment, i)
    decreases |buf|
  {
    if buf == [] {
    } else {
      var next := if buf[0] % 0x80 != 0 then fragment + 7 else fragment;
      DecodesExactly(buf[1..], next, i);
      if i in DecodeAck(buf, fragment) {
        if buf[0] % 0x80 != 0 && i in BitsOf(buf[0] % 0x80, fragment) {
          NamedFirst(buf, fragment, i);
        } else {
          NamedLater(buf, fragment, i, next);
        }
      }
      if Named(buf, fragment, i) {
        NamedWhere(buf, fragment, i, next);
      }
    }
  }

  lemma OneBit(k: nat, fragment: nat)
    requires k < 7
    ensures BitsOf(Bit(k), fragment) == {fragment + k}
  {
    forall j | 0 <= j < 7 ensures HasBit(Bit(k), j) <==> j == k {
    }
    assert HasBit(Bit(k), k) && fragment + k in BitsOf(Bit(k), fragment);
  }

  lemma SkipEmptyByte(n: nat)
    requires n >= 7
    ensures EncodeAck(n) == [0x80] + EncodeAck(n - 7)
    ensures n % 7 == (n - 7) % 7
  {
    assert n / 7 == (n - 7) / 7 + 1;
  }

  /** A byte without bits changes nothing, not even the counter. */
  lemma DecodeEmptyByte(rest: seq<byte>, fragment: nat)
    ensures DecodeAck([0x80] + rest, fragment) == DecodeAck(rest, fragment)
  {
    assert ([0x80] + rest)[1..] == rest;
  }

  lemma DecodeLastByte(k: nat)
    requires k < 7
    ensures DecodeAck([Bit(k)], 0) == {k}
  {
    OneBit(k, 0);
    assert 0 < Bit(k) < 0x80;
  }

  /**
   The acknowledgement of fragment n is understood as one of fragment n % 7, because the counter stands still over the
   leading empty bytes.
   */
  lemma {:induction false} AckDecodes(n: nat)
    ensures DecodeAck(EncodeAck(n), 0) == {n % 7}
    decreases n
  {
    if n < 7 {
      assert EncodeAck(n) == [Bit(n)];
      DecodeLastByte(n);
    } else {
      SkipEmptyByte(n);
      DecodeEmptyByte(EncodeAck(n - 7), 0);
      AckDecodes(n - 7);
    }
  }

  /** So an acknowledgement is understood correctly exactly for the first seven fragments of a message. */
  lemma AckUnderstood(n: nat)
    ensures DecodeAck(EncodeAck(n), 0) == {n} <==> n < 7
  {
    AckDecodes(n);
    if n >= 7 {
      assert n !in {n % 7};
    }
  }
}
