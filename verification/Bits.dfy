/** Arrays of bytes used as bitmaps: element i/8, bit i%8. */
module Bits {

  /** 1 << k */
  function Bit(k: nat): bv8
    requires k < 8
  {
    if k == 0 then 1 else Bit(k - 1) << 1
  }

  lemma {:induction false} BitValue(k: nat)
    requires k < 8
    ensures Bit(k) == if k == 0 then 1 else if k == 1 then 2 else if k == 2 then 4 else if k == 3 then 8
                      else if k == 4 then 16 else if k == 5 then 32 else if k == 6 then 64 else 128
  {
    if k > 0 { BitValue(k - 1); }
  }

  /** Bit k of a byte, counted from the least significant one. */
  predicate HasBit(b: bv8, k: nat)
    requires k < 8
  {
    if k == 0 then b & 1 != 0 else HasBit(b >> 1, k - 1)
  }

  /** A mask tells. */
  lemma {:induction false} MaskTells(b: bv8, k: nat)
    requires k < 8
    ensures HasBit(b, k) <==> b & Bit(k) != 0
  {
    BitValue(k);
    if k > 0 {
      MaskTells(b >> 1, k - 1);
      BitValue(k - 1);
    }
  }

  lemma {:induction false} MaskAfterOr(b: bv8, k: nat, l: nat)
    requires k < 8 && l < 8
    ensures (b | Bit(k)) & Bit(l) != 0 <==> k == l || b & Bit(l) != 0
  {
    BitValue(k);
    BitValue(l);
  }

  lemma {:induction false} MaskAfterAndNot(b: bv8, k: nat, l: nat)
    requires k < 8 && l < 8
    ensures (b & !Bit(k)) & Bit(l) != 0 <==> k != l && b & Bit(l) != 0
  {
    BitValue(k);
    BitValue(l);
  }

  lemma {:induction false} OrBit(b: bv8, c: bv8, k: nat, l: nat)
    requires k < 8 && l < 8 && c == b | Bit(k)
    ensures HasBit(c, l) <==> k == l || HasBit(b, l)
  {
    MaskTells(b, l);
    MaskTells(c, l);
    MaskAfterOr(b, k, l);
  }

  lemma {:induction false} AndNotBit(b: bv8, c: bv8, k: nat, l: nat)
    requires k < 8 && l < 8 && c == b & !Bit(k)
    ensures HasBit(c, l) <==> k != l && HasBit(b, l)
  {
    MaskTells(b, l);
    MaskTells(c, l);
    MaskAfterAndNot(b, k, l);
  }

  predicate TestBit(v: seq<bv8>, i: nat)
    requires i < 8 * |v|
  {
    HasBit(v[i / 8], i % 8)
  }

  /** Testing a bit with its mask. */
  predicate TestMask(v: seq<bv8>, i: nat): (b: bool)
    requires i < 8 * |v|
    ensures b <==> TestBit(v, i)
  {
    MaskTells(v[i / 8], i % 8);
    v[i / 8] & Bit(i % 8) != 0
  }

  function SetBit(v: seq<bv8>, i: nat): (w: seq<bv8>)
    requires i < 8 * |v|
    ensures |w| == |v|
  {
    v[i / 8 := v[i / 8] | Bit(i % 8)]
  }

  function ClearBit(v: seq<bv8>, i: nat): (w: seq<bv8>)
    requires i < 8 * |v|
    ensures |w| == |v|
  {
    v[i / 8 := v[i / 8] & !Bit(i % 8)]
  }

  lemma {:induction false} ZeroByte(k: nat)
    requires k < 8
    ensures !HasBit(0, k)
  {
    MaskTells(0, k);
  }

  function Zeros(n: nat): (v: seq<bv8>)
    ensures |v| == n
    ensures forall i: nat | i < 8 * n :: !TestBit(v, i)
  {
    var v: seq<bv8> := seq(n, _ => 0);
    assert forall i: nat | i < 8 * n :: !TestBit(v, i) by {
      forall i: nat | i < 8 * n
        ensures !TestBit(v, i)
      {
        assert v[i / 8] == 0;
        ZeroByte(i % 8);
      }
    }
    v
  }

  /** Two positions are the same if they are in the same element and at the same place there. */
  lemma SamePlace(i: nat, j: nat)
    ensures i == j <==> i / 8 == j / 8 && i % 8 == j % 8
  {
  }

  lemma SetBitAt(v: seq<bv8>, i: nat, j: nat)
    requires i < 8 * |v| && j < 8 * |v|
    ensures TestBit(SetBit(v, i), j) <==> j == i || TestBit(v, j)
  {
    SamePlace(i, j);
    OrBit(v[i / 8], SetBit(v, i)[i / 8], i % 8, j % 8);
  }

  lemma ClearBitAt(v: seq<bv8>, i: nat, j: nat)
    requires i < 8 * |v| && j < 8 * |v|
    ensures TestBit(ClearBit(v, i), j) <==> j != i && TestBit(v, j)
  {
    SamePlace(i, j);
    AndNotBit(v[i / 8], ClearBit(v, i)[i / 8], i % 8, j % 8);
  }
}
