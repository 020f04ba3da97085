/** A set of integers between 1 and iSize, held as a bitmap, as a hash table, or as a
    row of sub-bitmaps, whichever suits its size and population. */
module BitvecModel {
  import opened Arith
  import opened Common
  import opened Bits
  import opened LinearProbe

  /** The number of bytes in a bitmap, of slots in a hash table, and of sub-bitmaps in a node. */
  datatype Sizes = Sizes(nElem: nat, nInt: nat, nPtr: nat) {
    function NBit(): nat { 8 * nElem }

    function MxHash(): nat { nInt / 2 }
  }

  /** What the algorithms need of the sizes. */
  predicate IsSizes(z: Sizes) {
    z.nElem > 0 && z.nInt >= 2 && z.nPtr >= 2
  }

  const BITVEC_SZ: nat := 512

  /** The sizes that a structure of BITVEC_SZ bytes leaves for its union, after three integers of
      four bytes. */
  function SizesFor(pointerSize: nat): (z: Sizes)
    requires pointerSize > 0
    ensures pointerSize == 8 ==> z == Sizes(496, 124, 62) && z.NBit() == 3968 && z.MxHash() == 62
    ensures pointerSize == 4 ==> z == Sizes(500, 125, 125) && z.NBit() == 4000 && z.MxHash() == 62
  {
    var usize := (BITVEC_SZ - 3 * 4) / pointerSize * pointerSize;
    Sizes(usize, usize / 4, usize / pointerSize)
  }

  datatype Code = OK | NOMEM

  /** The results of two calls or'ed together. */
  function Or(a: Code, b: Code): Code {
    if a == OK then b else a
  }

  /** The sub-bitmap that value i goes to: bin N takes the values from N*div+1 to (N+1)*div. */
  ghost function Bin(div: nat, i: nat): (k: nat)
    requires div > 0 && i > 0
    ensures k < i && (div >= 2 && i >= 2 ==> k + 1 < i)
  {
    if i <= div then 0 else 1 + Bin(div, i - div)
  }

  /** The value that stands for i in its sub-bitmap. */
  ghost function Inner(div: nat, i: nat): (v: nat)
    requires div > 0 && i > 0
    ensures 1 <= v <= div
  {
    if i <= div then i else Inner(div, i - div)
  }

  lemma OneMore(d: nat, b: nat)
    ensures d * (b + 1) == d * b + d
  {
  }

  lemma {:induction false} BinProduct(div: nat, i: nat)
    requires div > 0 && i > 0
    ensures i == div * Bin(div, i) + Inner(div, i)
  {
    if i > div {
      BinProduct(div, i - div);
      OneMore(div, Bin(div, i - div));
    }
  }

  lemma {:induction false} BinIsQuotient(div: nat, i: nat)
    requires div > 0 && i > 0
    ensures Bin(div, i) == (i - 1) / div && Inner(div, i) == (i - 1) % div + 1
  {
    BinProduct(div, i);
    QuotientUnique(i - 1, div, Bin(div, i), Inner(div, i) - 1);
  }

  lemma {:induction false} BinInner(div: nat, i: nat, j: nat)
    requires div > 0 && i > 0 && j > 0
    requires Bin(div, i) == Bin(div, j) && Inner(div, i) == Inner(div, j)
    ensures i == j
  {
    if i > div && j > div {
      BinInner(div, i - div, j - div);
    }
  }

  /** The number of values each sub-bitmap of a split node handles: size/nPtr, rounded up. */
  ghost function Divisor(nPtr: nat, size: nat): (div: nat)
    requires nPtr >= 2 && size >= 2
    ensures 0 < div < size
  {
    Bin(nPtr, size) + 1
  }

  lemma DivisorIsQuotient(nPtr: nat, size: nat)
    requires nPtr >= 2 && size >= 2
    ensures Divisor(nPtr, size) == (size + nPtr - 1) / nPtr && Divisor(nPtr, size) * nPtr >= size
  {
    var b, v := Bin(nPtr, size), Inner(nPtr, size);
    BinProduct(nPtr, size);
    OneMore(nPtr, b);
    assert (b + 1) * nPtr == nPtr * (b + 1);
    QuotientUnique(size + nPtr - 1, nPtr, b + 1, v - 1);
  }

  /** Every value has one of the nPtr bins. */
  lemma {:induction false} BinInRange(nPtr: nat, size: nat, i: nat)
    requires nPtr >= 2 && size >= 2 && 1 <= i <= size
    ensures Bin(Divisor(nPtr, size), i) < nPtr && 1 <= Inner(Divisor(nPtr, size), i) <= Divisor(nPtr, size)
  {
    DivisorIsQuotient(nPtr, size);
    QuotientBelow(i - 1, Divisor(nPtr, size), nPtr);
    BinIsQuotient(Divisor(nPtr, size), i);
  }

  /** The bin of a value and what stands for it there. */
  method BinAndInner(div: nat, i: nat) returns (bin: nat, v: nat)
    requires div > 0 && i > 0
    ensures bin == Bin(div, i) && v == Inner(div, i)
  {
    BinIsQuotient(div, i);
    bin, v := (i - 1) / div, (i - 1) % div + 1;
  }

  /** Value i's bin has a sub-bitmap and that holds i's remainder. */
  ghost predicate HeldBy(subs: seq<Bitvec?>, div: nat, i: nat)
    requires div > 0 && i > 0
    reads subs
  {
    var k := Bin(div, i);
    k < |subs| && subs[k] != null && Inner(div, i) in subs[k].contents
  }

  class Bitvec {
    const z: Sizes
    const iSize: nat
    var nSet: nat
    var iDivisor: nat
    // the members of the union
    var aBitmap: seq<bv8>
    var aHash: seq<nat>
    var apSub: seq<Bitvec?>

    ghost var contents: set<nat>
    ghost var Repr: set<Bitvec>

    ghost predicate ValidBitmap()
      reads this
    {
      && iSize <= z.NBit() && iDivisor == 0 && |aBitmap| == z.nElem
      && forall i | 1 <= i <= iSize :: i in contents <==> TestBit(aBitmap, i - 1)
    }

    ghost predicate ValidHash()
      reads this
    {
      && iDivisor == 0 && |aHash| == z.nInt
      && WellPlaced(aHash)
      && nSet == Count(aHash) < z.nInt
      && contents == Values(aHash)
    }

    /** Sub-bitmaps are separate objects below this one. */
    ghost predicate SubsApart()
      reads this, Repr
    {
      && (forall k | 0 <= k < |apSub| :: var c := apSub[k]; c != null ==>
            c in Repr && c.Repr <= Repr && this !in c.Repr && c in c.Repr && c.iSize == iDivisor && c.z == z)
      && (forall k, l | 0 <= k < l < |apSub| :: apSub[k] != null && apSub[l] != null ==>
            apSub[k].Repr !! apSub[l].Repr)
    }

    /** A value is present if its bin has a sub-bitmap that holds its remainder. */
    ghost predicate SubsHold()
      requires iDivisor > 0
      reads this, apSub
    {
      forall i | 1 <= i <= iSize :: i in contents <==> HeldBy(apSub, iDivisor, i)
    }

    ghost predicate Valid()
      reads this, Repr
      ensures Valid() ==> this in Repr
      decreases Repr
    {
      && this in Repr && IsSizes(z)
      && iSize < TWO32
      && (forall i | i in contents :: 1 <= i <= iSize)
      && (iSize <= z.NBit() ==> ValidBitmap())
      && (iSize > z.NBit() && iDivisor == 0 ==> ValidHash())
      && (iSize > z.NBit() && iDivisor != 0 ==>
            && iDivisor == Divisor(z.nPtr, iSize) && |apSub| == z.nPtr
            && SubsApart()
            && (forall k | 0 <= k < |apSub| && apSub[k] != null :: apSub[k].Valid())
            && SubsHold())
    }

    /** Setting bit i would have to split a hash node: the search for i ends in a hash node that does
        not hold it and is half full, with the home slot taken or one slot left. */
    ghost predicate MustSplit(i: nat)
      requires Valid() && 1 <= i <= iSize
      reads this, Repr
      decreases iSize
    {
      if iSize <= z.NBit() then false
      else if iDivisor == 0 then
        i !in contents && nSet >= z.MxHash() && (aHash[Home(z.nInt, i)] != 0 || nSet >= z.nInt - 1)
      else
        var c := apSub[BinOf(i)];
        c != null && c.MustSplit(Inner(iDivisor, i))
    }

    /** How many split nodes the search for i passes. */
    ghost function Depth(i: nat): nat
      requires Valid() && 1 <= i <= iSize
      reads this, Repr
      decreases iSize
    {
      if iSize <= z.NBit() || iDivisor == 0 then 0
      else
        var c := apSub[BinOf(i)];
        1 + if c == null then 0 else c.Depth(Inner(iDivisor, i))
    }

    /** The bin of a value in a split node. */
    ghost function BinOf(i: nat): (k: nat)
      requires IsSizes(z) && iSize > z.NBit() && iDivisor == Divisor(z.nPtr, iSize) && 1 <= i <= iSize
      reads this
      ensures k == Bin(iDivisor, i) < z.nPtr
    {
      BinInRange(z.nPtr, iSize, i);
      Bin(iDivisor, i)
    }

    constructor (z: Sizes, iSize: nat)
      requires IsSizes(z) && iSize < TWO32
      ensures Valid() && fresh(Repr) && contents == {} && this.z == z && this.iSize == iSize && Repr == {this}
      ensures nSet == 0 && iDivisor == 0
    {
      this.z, this.iSize := z, iSize;
      nSet, iDivisor := 0, 0;
      aBitmap, aHash, apSub := Zeros(z.nElem), Empty(z.nInt), [];
      contents, Repr := {}, {this};
      CountEmpty(Empty(z.nInt));
    }

    /** A value is in a split node exactly when its remainder is in the sub-bitmap of its bin. */
    lemma {:induction false} HeldBelow(i: nat)
      requires Valid() && iDivisor != 0 && 1 <= i <= iSize
      ensures 0 < iDivisor < iSize && Bin(iDivisor, i) < z.nPtr == |apSub|
      ensures var c := apSub[Bin(iDivisor, i)];
              && (c == null ==> i !in contents)
              && (c != null ==> c.Valid() && c.z == z && c.iSize == iDivisor)
              && (c != null ==> (i in contents <==> Inner(iDivisor, i) in c.contents))
    {
      BinInRange(z.nPtr, iSize, i);
      assert i in contents <==> HeldBy(apSub, iDivisor, i);
    }

    /** Look a value up in a node that is not split. */
    method TestLeaf(i: nat) returns (b: bool)
      requires Valid() && iDivisor == 0 && 1 <= i <= iSize
      ensures b <==> i in contents
    {
      if iSize <= z.NBit() {
        b := TestMask(aBitmap, i - 1);
      } else {
        var h;
        h, b := Probe(aHash, i);
      }
    }

    /** Where the search for a value goes on below a split node. */
    method Descend(i: nat) returns (v: nat, c: Bitvec?)
      requires Valid() && iDivisor != 0 && 1 <= i <= iSize
      ensures c == null ==> i !in contents
      ensures c != null ==> c.Valid() && 1 <= v <= c.iSize < iSize && (i in contents <==> v in c.contents)
    {
      HeldBelow(i);
      var bin;
      bin, v := BinAndInner(iDivisor, i);
      c := apSub[bin];
    }

    /** Is bit i set?  Out-of-range values, zero among them, are reported as not set. */
    method TestNotNull(i: nat) returns (b: bool)
      requires Valid() && i < TWO32
      ensures b <==> i in contents
    {
      var i': nat := if i == 0 then TWO32 else i;   // one more than i - 1, which wraps around
      if i' - 1 >= iSize { return false; }
      var p: Bitvec := this;
      while p.iDivisor != 0
        invariant p.Valid() && 1 <= i' <= p.iSize
        invariant i in contents <==> i' in p.contents
        decreases p.iSize
      {
        var v, c := p.Descend(i');
        if c == null { return false; }
        i', p := v, c;
      }
      b := p.TestLeaf(i');
    }

    /** Everything Valid() says of a split node, except that sub-bitmap `bin` may just have
        changed its contents and grown. */
    ghost predicate ValidExcept(bin: nat)
      reads this, apSub, Repr, set k, o | 0 <= k < |apSub| && apSub[k] != null && o in apSub[k].Repr :: o
    {
      && this in Repr && IsSizes(z) && z.NBit() < iSize < TWO32
      && iDivisor == Divisor(z.nPtr, iSize) && |apSub| == z.nPtr && bin < z.nPtr
      && apSub[bin] != null
      && (forall i | i in contents :: 1 <= i <= iSize)
      && (forall k | 0 <= k < |apSub| && apSub[k] != null ::
            apSub[k].Valid() && apSub[k].iSize == iDivisor && apSub[k].z == z && this !in apSub[k].Repr)
      && (forall k | 0 <= k < |apSub| && apSub[k] != null && k != bin :: apSub[k].Repr <= Repr)
      && (forall k, l | 0 <= k < l < |apSub| :: apSub[k] != null && apSub[l] != null ==> apSub[k].Repr !! apSub[l].Repr)
    }

    /** The contents of a split node, given those of one sub-bitmap. */
    ghost function ContentsWith(bin: nat, sub: set<nat>): (s: set<nat>)
      requires iDivisor > 0
      reads this
    {
      set x | 1 <= x <= iSize && if Bin(iDivisor, x) == bin then Inner(iDivisor, x) in sub else x in contents
    }

    ghost predicate SubsHoldExcept(bin: nat)
      requires iDivisor > 0
      reads this, apSub
    {
      forall i | 1 <= i <= iSize && Bin(iDivisor, i) != bin :: i in contents <==> HeldBy(apSub, iDivisor, i)
    }

    /** When sub-bitmap `bin` has changed, and nothing outside it, the rest of the node is as before. */
    twostate lemma SubChanged(bin: nat)
      requires old(Valid()) && old(iDivisor) != 0 && bin < z.nPtr && old(apSub[bin]) != null
      requires unchanged(this)
      requires forall o | o in old(Repr) && o !in old(apSub[bin].Repr) :: unchanged(o)
      requires apSub[bin].Valid() && fresh(apSub[bin].Repr - old(apSub[bin].Repr))
      ensures ValidExcept(bin) && SubsHoldExcept(bin)
    {
      forall k | 0 <= k < |apSub| && k != bin && apSub[k] != null
        ensures apSub[k].Valid() && apSub[k].contents == old(apSub[k].contents) && apSub[k].Repr == old(apSub[k].Repr)
      {
      }
    }

    /** Take over what sub-bitmap `bin` has become. */
    ghost method Adopt(bin: nat)
      requires ValidExcept(bin) && SubsHoldExcept(bin)
      modifies this`Repr, this`contents
      ensures Valid() && Repr == old(Repr) + apSub[bin].Repr
      ensures contents == old(ContentsWith(bin, apSub[bin].contents))
    {
      Repr := Repr + apSub[bin].Repr;
      contents := ContentsWith(bin, apSub[bin].contents);
    }

    lemma {:induction false} ContentsAfter(bin: nat, i: nat, before: set<nat>, sub: set<nat>, sub': set<nat>)
      requires iDivisor > 0 && 1 <= i && bin == Bin(iDivisor, i)
      requires forall x | x in before :: 1 <= x <= iSize
      requires contents == before && HeldIn(bin, sub)
      ensures sub' <= sub + {Inner(iDivisor, i)} ==> ContentsWith(bin, sub') <= before + {i}
      ensures i <= iSize && sub' == sub + {Inner(iDivisor, i)} ==> ContentsWith(bin, sub') == before + {i}
      ensures sub' == sub ==> ContentsWith(bin, sub') == before
      ensures sub' == sub - {Inner(iDivisor, i)} ==> ContentsWith(bin, sub') == before - {i}
    {
      forall x | 1 <= x <= iSize
        ensures Bin(iDivisor, x) == bin && Inner(iDivisor, x) == Inner(iDivisor, i) ==> x == i
      {
        if Bin(iDivisor, x) == bin && Inner(iDivisor, x) == Inner(iDivisor, i) {
          BinInner(iDivisor, x, i);
        }
      }
    }

    /** Sub-bitmap `bin`, where value i belongs, held `sub` when the node was in order. */
    ghost predicate HeldIn(bin: nat, sub: set<nat>)
      requires iDivisor > 0
      reads this
    {
      forall x | 1 <= x <= iSize && Bin(iDivisor, x) == bin :: x in contents <==> Inner(iDivisor, x) in sub
    }

    lemma {:induction false} HeldInSub(bin: nat)
      requires Valid() && iDivisor != 0 && bin < z.nPtr && apSub[bin] != null
      ensures HeldIn(bin, apSub[bin].contents)
    {
      forall x | 1 <= x <= iSize && Bin(iDivisor, x) == bin
        ensures x in contents <==> Inner(iDivisor, x) in apSub[bin].contents
      {
        assert x in contents <==> HeldBy(apSub, iDivisor, x);
      }
    }

    /** Take over what the sub-bitmap of value i has become. */
    ghost method Absorb(bin: nat, i: nat, sub: set<nat>)
      requires ValidExcept(bin) && SubsHoldExcept(bin) && HeldIn(bin, sub)
      requires 1 <= i && bin == Bin(iDivisor, i)
      modifies this`Repr, this`contents
      ensures Valid() && Repr == old(Repr) + apSub[bin].Repr
      ensures apSub[bin].contents <= sub + {Inner(iDivisor, i)} ==> contents <= old(contents) + {i}
      ensures i <= iSize && apSub[bin].contents == sub + {Inner(iDivisor, i)} ==> contents == old(contents) + {i}
      ensures apSub[bin].contents == sub ==> contents == old(contents)
      ensures apSub[bin].contents == sub - {Inner(iDivisor, i)} ==> contents == old(contents) - {i}
    {
      ContentsAfter(bin, i, contents, sub, apSub[bin].contents);
      Adopt(bin);
    }

    /** A search below a split node. */
    lemma {:induction false} SearchBelow(bin: nat, i: nat)
      requires Valid() && iDivisor != 0 && 1 <= i <= iSize && bin == Bin(iDivisor, i) < z.nPtr && apSub[bin] != null
      ensures apSub[bin].Valid() && apSub[bin].iSize == iDivisor
      ensures Depth(i) == 1 + apSub[bin].Depth(Inner(iDivisor, i))
      ensures MustSplit(i) <==> apSub[bin].MustSplit(Inner(iDivisor, i))
    {
    }

    /** Give a bin an empty sub-bitmap; this is where memory can run out, if there is not enough. */
    method AddSub(bin: nat, enough: bool) returns (ok: bool)
      requires Valid() && iDivisor != 0 && bin < z.nPtr && apSub[bin] == null
      modifies this
      ensures Valid() && fresh(Repr - old(Repr)) && iDivisor == old(iDivisor) && contents == old(contents)
      ensures |apSub| == |old(apSub)|
      ensures ok <==> apSub[bin] != null
      ensures enough ==> ok
      ensures ok ==> apSub[bin].nSet == 0 && apSub[bin].iDivisor == 0
    {
      ok := true;
      if !enough { ok := *; }
      if ok {
        var c := new Bitvec(z, iDivisor);
        apSub := apSub[bin := c];
        Repr := Repr + {c};
      }
    }

    /** Make sure that the bin of value i has a sub-bitmap. */
    method EnsureSub(bin: nat, enough: bool, ghost i: nat) returns (ok: bool)
      requires Valid() && iDivisor != 0 && 1 <= i <= iSize && bin == Bin(iDivisor, i) < z.nPtr
      modifies this
      ensures Valid() && fresh(Repr - old(Repr)) && iDivisor == old(iDivisor) && contents == old(contents)
      ensures ok ==> apSub[bin] != null
      ensures enough ==> ok
      ensures Depth(i) == old(Depth(i)) && (MustSplit(i) <==> old(MustSplit(i)))
    {
      ok := true;
      if apSub[bin] == null {
        ok := AddSub(bin, enough);
        if ok { SearchBelow(bin, i); }
      }
    }

    /** Set bit i of a split node. */
    method SetSub(i: nat, enough: bool) returns (rc: Code)
      requires Valid() && iDivisor != 0 && 1 <= i <= iSize
      modifies Repr
      ensures Valid() && fresh(Repr - old(Repr)) && iDivisor == old(iDivisor)
      ensures contents <= old(contents) + {i}
      ensures enough ==> rc == OK
      ensures rc == OK ==> contents == old(contents) + {i}
      ensures rc == NOMEM && Depth(i) == old(Depth(i)) ==> contents == old(contents)
      ensures Depth(i) != old(Depth(i)) ==> old(MustSplit(i))
      ensures rc == OK && old(MustSplit(i)) ==> Depth(i) > old(Depth(i))
      decreases iSize, 0, 2
    {
      BinInRange(z.nPtr, iSize, i);
      var bin, v := BinAndInner(iDivisor, i);
      var ok := EnsureSub(bin, enough, i);
      if !ok { return NOMEM; }
      rc := SetIn(bin, v, enough, i);
    }

    /** Set bit i in the sub-bitmap of its bin: the outcome in terms of that sub-bitmap ... */
    method SetChild(bin: nat, v: nat, enough: bool, ghost i: nat) returns (rc: Code)
      requires Valid() && iDivisor != 0 && 1 <= i <= iSize
      requires bin == Bin(iDivisor, i) < z.nPtr && v == Inner(iDivisor, i) && apSub[bin] != null
      requires apSub[bin].Valid() && v <= apSub[bin].iSize
      modifies Repr
      ensures Valid() && fresh(Repr - old(Repr)) && iDivisor == old(iDivisor) && apSub == old(apSub)
      ensures contents <= old(contents) + {i}
      ensures enough ==> rc == OK
      ensures rc == OK ==> contents == old(contents) + {i}
      ensures apSub[bin].Valid()
      ensures rc == NOMEM && apSub[bin].Depth(v) == old(apSub[bin].Depth(v)) ==> contents == old(contents)
      ensures apSub[bin].Depth(v) != old(apSub[bin].Depth(v)) ==> old(apSub[bin].MustSplit(v))
      ensures rc == OK && old(apSub[bin].MustSplit(v)) ==> apSub[bin].Depth(v) > old(apSub[bin].Depth(v))
      decreases iSize, 0, 0
    {
      var c: Bitvec := apSub[bin];
      ghost var sub := c.contents;
      HeldInSub(bin);
      rc := c.Set(v, enough);
      ghost var depth := c.Depth(v);
      SubChanged(bin);
      Absorb(bin, i, sub);
      assert c.Depth(v) == depth;
    }

    /** ... and in terms of this node. */
    method SetIn(bin: nat, v: nat, enough: bool, ghost i: nat) returns (rc: Code)
      requires Valid() && iDivisor != 0 && 1 <= i <= iSize
      requires bin == Bin(iDivisor, i) < z.nPtr && v == Inner(iDivisor, i) && apSub[bin] != null
      modifies Repr
      ensures Valid() && fresh(Repr - old(Repr)) && iDivisor == old(iDivisor)
      ensures contents <= old(contents) + {i}
      ensures enough ==> rc == OK
      ensures rc == OK ==> contents == old(contents) + {i}
      ensures rc == NOMEM && Depth(i) == old(Depth(i)) ==> contents == old(contents)
      ensures Depth(i) != old(Depth(i)) ==> old(MustSplit(i))
      ensures rc == OK && old(MustSplit(i)) ==> Depth(i) > old(Depth(i))
      decreases iSize, 0, 1
    {
      SearchBelow(bin, i);
      rc := SetChild(bin, v, enough, i);
      SearchBelow(bin, i);
    }

    /** Looking for i stays inside the arrays of the vector, which are no smaller than iSize asks. */
    ghost predicate WithinArrays(i: nat)
      reads this
    {
      && i >= 1
      && (iSize <= z.NBit() ==> i <= z.NBit())
      && (iDivisor != 0 ==> Bin(iDivisor, i) < z.nPtr)
    }

    lemma InRangeIsWithinArrays(i: nat)
      requires Valid() && 1 <= i <= iSize
      ensures WithinArrays(i)
    {
      if iDivisor != 0 { BinInRange(z.nPtr, iSize, i); }
    }

    /** Clear bit i. */
    method Clear(i: nat)
      requires Valid() && WithinArrays(i)
      modifies Repr
      ensures Valid() && Repr == old(Repr)
      ensures contents == old(contents) - {i}
      decreases iSize, 1
    {
      if iDivisor != 0 {
        var bin, v := BinAndInner(iDivisor, i);
        if apSub[bin] == null {
          assert i !in contents;
          return;
        }
        ClearIn(bin, v, i);
      } else if iSize <= z.NBit() {
        ClearInBitmap(i);
      } else {
        aHash, nSet := Rebuild(aHash, i);
        contents := contents - {i};
      }
    }

    method ClearInBitmap(i: nat)
      requires Valid() && iSize <= z.NBit() && 1 <= i <= z.NBit()
      modifies this
      ensures Valid() && Repr == old(Repr)
      ensures contents == old(contents) - {i}
    {
      ghost var before, bitmap := contents, aBitmap;
      aBitmap := ClearBit(aBitmap, i - 1);
      contents := contents - {i};
      forall x | 1 <= x <= iSize
        ensures x in contents <==> TestBit(aBitmap, x - 1)
      {
        assert x in before <==> TestBit(bitmap, x - 1);
        ClearBitAt(bitmap, i - 1, x - 1);
      }
    }

    method ClearIn(bin: nat, v: nat, ghost i: nat)
      requires Valid() && iDivisor != 0 && 1 <= i
      requires bin == Bin(iDivisor, i) < z.nPtr && v == Inner(iDivisor, i) && apSub[bin] != null
      modifies Repr
      ensures Valid() && Repr == old(Repr)
      ensures contents == old(contents) - {i}
      decreases iSize, 0
    {
      var c: Bitvec := apSub[bin];
      c.InRangeIsWithinArrays(v);
      ghost var sub := c.contents;
      HeldInSub(bin);
      c.Clear(v);
      SubChanged(bin);
      Absorb(bin, i, sub);
    }

    /** Set bit i.  If memory runs out, nothing that was not asked for appears, and nothing is lost
        either unless a hash node has been split, which happens only if it must. */
    method Set(i: nat, enough: bool) returns (rc: Code)
      requires Valid() && 1 <= i <= iSize
      modifies Repr
      ensures Valid() && fresh(Repr - old(Repr))
      ensures contents <= old(contents) + {i}
      ensures enough ==> rc == OK
      ensures rc == OK ==> contents == old(contents) + {i}
      ensures rc == NOMEM && Depth(i) == old(Depth(i)) ==> contents == old(contents)
      ensures Depth(i) != old(Depth(i)) ==> old(MustSplit(i))
      ensures rc == OK && old(MustSplit(i)) ==> Depth(i) > old(Depth(i))
      ensures old(iDivisor) != 0 ==> iDivisor == old(iDivisor)
      decreases iSize, if iDivisor == 0 then 1 else 0, 3
    {
      if iSize > z.NBit() && iDivisor != 0 {
        rc := SetSub(i, enough);
        return;
      }
      if iSize <= z.NBit() {
        SetInBitmap(i);
        return OK;
      }
      rc := SetHash(i, enough);
    }

    /** Set bit i of a bitmap node. */
    method SetInBitmap(i: nat)
      requires Valid() && iSize <= z.NBit() && 1 <= i <= iSize
      modifies this
      ensures Valid() && Repr == old(Repr) && iDivisor == old(iDivisor)
      ensures contents == old(contents) + {i}
    {
      ghost var before, bitmap := contents, aBitmap;
      aBitmap := SetBit(aBitmap, i - 1);
      contents := contents + {i};
      forall x | 1 <= x <= iSize
        ensures x in contents <==> TestBit(aBitmap, x - 1)
      {
        assert x in before <==> TestBit(bitmap, x - 1);
        SetBitAt(bitmap, i - 1, x - 1);
      }
    }

    /** Put value i into a free slot of a hash node. */
    method PlaceInHash(i: nat, h: nat)
      requires Valid() && iSize > z.NBit() && iDivisor == 0 && 1 <= i <= iSize && i !in aHash
      requires h < |aHash| && aHash[h] == 0 && TakenUpTo(aHash, Home(|aHash|, i), h) && nSet + 1 < z.nInt
      modifies this
      ensures Valid() && Repr == old(Repr) && iDivisor == 0
      ensures contents == old(contents) + {i}
    {
      PlaceKeeps(aHash, i, h);
      nSet := nSet + 1;
      aHash := aHash[h := i];
      contents := contents + {i};
    }

    /** Set bit i of a hash node. */
    method SetHash(i: nat, enough: bool) returns (rc: Code)
      requires Valid() && iSize > z.NBit() && iDivisor == 0 && 1 <= i <= iSize
      modifies Repr
      ensures Valid() && fresh(Repr - old(Repr))
      ensures contents <= old(contents) + {i}
      ensures enough ==> rc == OK
      ensures rc == OK ==> contents == old(contents) + {i}
      ensures rc == NOMEM && Depth(i) == old(Depth(i)) ==> contents == old(contents)
      ensures Depth(i) != old(Depth(i)) ==> old(MustSplit(i))
      ensures rc == OK && old(MustSplit(i)) ==> Depth(i) > old(Depth(i))
      ensures rc == OK ==>
                (iDivisor != 0 <==>
                 && i !in old(contents) && old(nSet) >= z.nInt / 2
                 && (old(aHash)[(i - 1) % z.nInt] != 0 || old(nSet) >= z.nInt - 1))
      decreases iSize, 1, 1
    {
      var taken := aHash[Home(z.nInt, i)] != 0;
      var h, found := Probe(aHash, i);
      if found {
        return OK;
      }
      if (taken || nSet >= z.nInt - 1) && nSet >= z.MxHash() {
        rc := Split(i, enough);
        return;
      }
      PlaceInHash(i, h);
      return OK;
    }

    /** Turn a hash node into a split node that holds nothing. */
    method Divide()
      requires Valid() && iSize > z.NBit() && iDivisor == 0
      modifies this
      ensures Valid() && iDivisor != 0 && contents == {} && Repr == {this}
    {
      apSub := seq(z.nPtr, _ => null);
      DivisorIsQuotient(z.nPtr, iSize);
      iDivisor := (iSize + z.nPtr - 1) / z.nPtr;
      contents, Repr := {}, {this};
    }

    /** Turn a hash node into a split node and insert everything again, the new value first. */
    method Split(i: nat, enough: bool) returns (rc: Code)
      requires Valid() && iSize > z.NBit() && iDivisor == 0 && 1 <= i <= iSize
      modifies Repr
      ensures Valid() && fresh(Repr - old(Repr))
      ensures contents <= old(contents) + {i}
      ensures enough ==> rc == OK
      ensures rc == OK ==> contents == old(contents) + {i}
      ensures rc == NOMEM && iDivisor == 0 ==> contents == old(contents)
      ensures rc == OK ==> iDivisor != 0
      decreases iSize, 1, 0
    {
      var ok := true;
      if !enough { ok := *; }
      if !ok { return NOMEM; }
      var aiValues := aHash;
      Divide();
      var rc0 := Set(i, enough);
      rc := Reinsert(aiValues, rc0, enough, i);
    }

    /** Insert the values that a hash table held. */
    method Reinsert(aiValues: seq<nat>, rc0: Code, enough: bool, ghost i: nat) returns (rc: Code)
      requires Valid() && iSize > z.NBit() && iDivisor != 0
      requires contents <= {i} && (rc0 == OK ==> contents == {i})
      requires forall v | v in Values(aiValues) :: 1 <= v <= iSize
      modifies Repr
      ensures Valid() && fresh(Repr - old(Repr)) && iDivisor != 0
      ensures contents <= Values(aiValues) + {i}
      ensures rc == OK ==> contents == Values(aiValues) + {i}
      ensures enough && rc0 == OK ==> rc == OK
      decreases iSize, 0, 4
    {
      rc := rc0;
      var j := 0;
      ghost var seen := {};
      while j < |aiValues|
        invariant 0 <= j <= |aiValues| && seen == Values(aiValues[..j])
        invariant Valid() && fresh(Repr - old(Repr)) && iDivisor != 0
        invariant contents <= seen + {i}
        invariant rc == OK ==> contents == seen + {i}
        invariant enough && rc0 == OK ==> rc == OK
      {
        ValuesNext(aiValues, j);
        if aiValues[j] != 0 {
          assert aiValues[j] in Values(aiValues);
          var rc2 := Set(aiValues[j], enough);
          rc := Or(rc, rc2);
          seen := seen + {aiValues[j]};
        }
        j := j + 1;
      }
      assert aiValues[..j] == aiValues;
    }
  }

  // ---- the entry points, which accept a null pointer ----

  /** Allocation may fail if there is not enough memory. */
  method BitvecCreate(z: Sizes, iSize: nat, enough: bool) returns (p: Bitvec?)
    requires IsSizes(z) && iSize < TWO32
    ensures enough ==> p != null
    ensures p != null ==> p.Valid() && fresh(p.Repr) && p.contents == {} && p.z == z && p.iSize == iSize
  {
    var ok := true;
    if !enough { ok := *; }
    if ok { p := new Bitvec(z, iSize); } else { p := null; }
  }

  method BitvecTest(p: Bitvec?, i: nat) returns (b: bool)
    requires p != null ==> p.Valid()
    requires i < TWO32
    ensures b <==> p != null && i in p.contents
  {
    if p == null { return false; }
    b := p.TestNotNull(i);
  }

  method BitvecSet(p: Bitvec?, i: nat, enough: bool) returns (rc: Code)
    requires p != null ==> p.Valid() && 1 <= i <= p.iSize
    modifies if p == null then {} else p.Repr
    ensures p == null || enough ==> rc == OK
    ensures p != null ==> p.Valid() && fresh(p.Repr - old(p.Repr))
    ensures p != null ==> p.contents <= old(p.contents) + {i}
    ensures p != null && rc == OK ==> p.contents == old(p.contents) + {i}
    ensures p != null && rc == NOMEM && p.Depth(i) == old(p.Depth(i)) ==> p.contents == old(p.contents)
    ensures p != null && rc == NOMEM && !old(p.MustSplit(i)) ==> p.contents == old(p.contents)
  {
    if p == null { return OK; }
    rc := p.Set(i, enough);
  }

  method BitvecClear(p: Bitvec?, i: nat)
    requires p != null ==> p.Valid() && p.WithinArrays(i)
    modifies if p == null then {} else p.Repr
    ensures p != null ==> p.Valid() && p.Repr == old(p.Repr) && p.contents == old(p.contents) - {i}
  {
    if p != null { p.Clear(i); }
  }
}
