/** Bitmaps: the bits of a sequence of bytes, lowest bit first, as src/high/memory/mem.cpp:108-136 and
    src/high/memory/heap.cpp:425-437 read and write them. */
module Bitmaps {

  // 1 << k
  function Mask(k: nat): bv8
    requires k < 8
  {
    if k == 0 then 1 else if k == 1 then 2 else if k == 2 then 4 else if k == 3 then 8
    else if k == 4 then 16 else if k == 5 then 32 else if k == 6 then 64 else 128
  }

  lemma MaskIsShift(k: nat)
    requires k < 8
    ensures Mask(k) == (1 as bv8) << k
  {
  }

  predicate Bit(b: bv8, k: nat)
    requires k < 8
  {
    b & Mask(k) != 0
  }

  lemma BitSet(b: bv8, k: nat, j: nat)
    requires k < 8 && j < 8
    ensures Bit(b | Mask(k), j) == (j == k || Bit(b, j))
    ensures Bit(b & !Mask(k), j) == (j != k && Bit(b, j))
    ensures !Bit(0, j)
  {
  }

  // The first n bits of some bytes.
  function BitsOf(bytes: seq<bv8>, n: nat): (r: seq<bool>)
    requires n <= 8 * |bytes|
    ensures |r| == n
  {
    seq(n, i requires 0 <= i < n => Bit(bytes[i / 8], i % 8))
  }

  lemma BitAt(bytes: seq<bv8>, n: nat, i: nat)
    requires i < n <= 8 * |bytes|
    ensures BitsOf(bytes, n)[i] == Bit(bytes[i / 8], i % 8)
  {
    hide Bit, Mask;
  }

  // One bit of byte k is written, and bit x of byte q is read.
  lemma ByteAfter(bytes: seq<bv8>, k: nat, y: nat, b: bv8, v: bool, q: nat, x: nat)
    requires k < |bytes| && q < |bytes| && x < 8 && y < 8
    requires b == if v then bytes[k] | Mask(y) else bytes[k] & !Mask(y)
    ensures Bit(bytes[k := b][q], x) == if q == k && x == y then v else Bit(bytes[q], x)
  {
    BitSet(bytes[k], y, x);
    hide Bit, Mask;
  }

  lemma SetByteAt(bytes: seq<bv8>, n: nat, i: nat, b: bv8, v: bool, j: nat)
    requires i < n <= 8 * |bytes| && j < n
    requires b == if v then bytes[i / 8] | Mask(i % 8) else bytes[i / 8] & !Mask(i % 8)
    ensures BitsOf(bytes[i / 8 := b], n)[j] == if j == i then v else BitsOf(bytes, n)[j]
  {
    hide Bit, Mask, BitsOf;
    ByteAfter(bytes, i / 8, i % 8, b, v, j / 8, j % 8);
    BitAt(bytes, n, j);
    BitAt(bytes[i / 8 := b], n, j);
    SameByte(i, j);
  }

  lemma SetByte(bytes: seq<bv8>, n: nat, i: nat, b: bv8, v: bool)
    requires i < n <= 8 * |bytes|
    requires b == if v then bytes[i / 8] | Mask(i % 8) else bytes[i / 8] & !Mask(i % 8)
    ensures BitsOf(bytes[i / 8 := b], n) == BitsOf(bytes, n)[i := v]
  {
    hide Bit, Mask;
    var after, want := BitsOf(bytes[i / 8 := b], n), BitsOf(bytes, n)[i := v];
    hide BitsOf;
    forall j | 0 <= j < |after|
      ensures after[j] == want[j]
    {
      SetByteAt(bytes, n, i, b, v, j);
    }
  }

  lemma SameByte(i: nat, j: nat)
    ensures i / 8 == j / 8 && i % 8 == j % 8 ==> i == j
  {
  }

  lemma AllClear(bytes: seq<bv8>, n: nat)
    requires n <= 8 * |bytes| && forall i :: 0 <= i < |bytes| ==> bytes[i] == 0
    ensures forall i :: 0 <= i < n ==> !BitsOf(bytes, n)[i]
  {
    hide Bit, Mask;
    forall i | 0 <= i < n
      ensures !BitsOf(bytes, n)[i]
    {
      BitSet(bytes[i / 8], 0, i % 8);
    }
  }
}
