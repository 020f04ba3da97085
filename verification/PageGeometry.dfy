/** Page sizes, page numbers and the page that is never used because it holds the lock bytes. */
module PageGeometry {
  import opened Arith

  function Pow2(k: nat): (p: nat)
    ensures p > 0
  {
    if k == 0 then 1 else 2 * Pow2(k - 1)
  }

  ghost predicate IsPow2(n: nat) {
    exists k: nat :: n == Pow2(k)
  }

  lemma {:induction false} Pow2Divides(i: nat, j: nat)
    requires i <= j
    ensures Pow2(j) % Pow2(i) == 0
    decreases j
  {
    if i == j {
      QuotientUnique(Pow2(j), Pow2(i), 1, 0);
    } else {
      Pow2Divides(i, j - 1);
      var q := Pow2(j - 1) / Pow2(i);
      assert Pow2(j - 1) == Pow2(i) * q;
      assert Pow2(j) == Pow2(i) * (2 * q) by { assert Pow2(i) * (2 * q) == 2 * (Pow2(i) * q); }
      QuotientUnique(Pow2(j), Pow2(i), 2 * q, 0);
    }
  }

  lemma {:induction false} Pow2Monotone(i: nat, j: nat)
    requires i < j
    ensures Pow2(i) < Pow2(j)
    decreases j
  {
    if i < j - 1 {
      Pow2Monotone(i, j - 1);
    }
  }

  /** Of two page sizes the smaller divides the larger. */
  lemma SmallerDivides(m: nat, n: nat)
    requires IsPow2(m) && IsPow2(n) && m <= n
    ensures m > 0 && n % m == 0
  {
    var i: nat :| m == Pow2(i);
    var j: nat :| n == Pow2(j);
    if j < i {
      Pow2Monotone(j, i);
      assert false;
    }
    Pow2Divides(i, j);
  }

  /** The offset of the lock bytes and the page sizes of the two databases. */
  datatype Geometry = Geometry(pending: nat, src: nat, dest: nat)

  ghost predicate IsGeometry(g: Geometry) {
    && IsPow2(g.src) && g.src >= 512 && g.pending % g.src == 0
    && IsPow2(g.dest) && g.dest >= 512 && g.pending % g.dest == 0
    && g.pending > 0
  }

  /** The offset of the first byte of page k; pages are numbered from 1. */
  function PageStart(pgsz: nat, k: nat): nat {
    if k <= 1 then 0 else PageStart(pgsz, k - 1) + pgsz
  }

  lemma {:induction false} PageStartIsProduct(pgsz: nat, k: nat)
    requires k >= 1 && pgsz > 0
    ensures PageStart(pgsz, k) == (k - 1) * pgsz && PageStart(pgsz, k) % pgsz == 0
  {
    if k > 1 {
      PageStartIsProduct(pgsz, k - 1);
    }
    QuotientUnique((k - 1) * pgsz, pgsz, k - 1, 0);
  }

  lemma {:induction false} PageStartMonotone(pgsz: nat, j: nat, k: nat)
    requires 1 <= j <= k
    ensures PageStart(pgsz, j) <= PageStart(pgsz, k)
    ensures j < k ==> PageStart(pgsz, j) + pgsz <= PageStart(pgsz, k)
    decreases k
  {
    if j < k {
      PageStartMonotone(pgsz, j, k - 1);
    }
  }

  /** The page that an aligned offset starts. */
  lemma {:induction false} PageAtOffset(pgsz: nat, o: nat)
    requires pgsz > 0 && o % pgsz == 0
    ensures PageStart(pgsz, o / pgsz + 1) == o
  {
    PageStartIsProduct(pgsz, o / pgsz + 1);
    assert o == pgsz * (o / pgsz);
  }

  /** The page that contains the lock bytes. */
  function PendingPage(pending: nat, pgsz: nat): nat
    requires pgsz > 0
  {
    pending / pgsz + 1
  }

  predicate InLockPage(pending: nat, pgsz: nat, o: nat) {
    pending <= o < pending + pgsz
  }

  /** An offset is on the lock page exactly when its page number says so. */
  lemma LockPageOffsets(pending: nat, pgsz: nat, o: nat)
    requires pgsz > 0 && pending % pgsz == 0
    ensures o / pgsz + 1 == PendingPage(pending, pgsz) <==> InLockPage(pending, pgsz, o)
  {
    var q := pending / pgsz;
    assert pending == pgsz * q;
    assert pgsz * (q + 1) == pgsz * q + pgsz;
    assert o == pgsz * (o / pgsz) + o % pgsz;
    if InLockPage(pending, pgsz, o) {
      QuotientUnique(o, pgsz, q, o - pending);
    }
  }

  /** The first byte of page k is on the lock page exactly when k is the lock page. */
  lemma {:induction false} LockPageNumber(pending: nat, pgsz: nat, k: nat)
    requires pgsz > 0 && pending % pgsz == 0 && k >= 1
    ensures k == PendingPage(pending, pgsz) <==> PageStart(pgsz, k) == pending
  {
    PageStartIsProduct(pgsz, k);
    var lo := (k - 1) * pgsz;
    QuotientUnique(lo, pgsz, k - 1, 0);
    assert pending == pgsz * (pending / pgsz);
  }

  /** A chunk of n bytes at offset o lies inside one page of size pgsz. */
  ghost predicate FitsPage(pgsz: nat, o: nat, n: nat)
    requires pgsz > 0
  {
    o % pgsz + n <= pgsz
  }

  /** A source page, when pages of the destination are larger, fits into one of them. */
  lemma SmallPageFits(small: nat, large: nat, lo: nat)
    requires small > 0 && large % small == 0 && large > 0 && lo % small == 0
    ensures FitsPage(large, lo, small)
  {
    var r, k := lo % large, large / small;
    var q, m := lo / large, lo / small;
    assert lo == large * q + r;
    assert large == small * k && lo == small * m;
    assert r == small * (m - k * q) by {
      assert large * q == small * (k * q);
      assert small * (m - k * q) == small * m - small * (k * q);
    }
    NonNegativeFactor(small, m - k * q);
    var d: nat := m - k * q;
    QuotientUnique(r, small, d, 0);
    QuotientBelow(r, small, k);
    MulMonotone(small, d + 1, k);
    assert small * (d + 1) == r + small;
  }

  lemma NonNegativeFactor(m: nat, x: int)
    requires m > 0 && m * x >= 0
    ensures x >= 0
  {
  }

  /** All bytes of a chunk inside one page are on the same page. */
  lemma ChunkOnOnePage(pending: nat, pgsz: nat, iOff: nat, n: nat, o: nat)
    requires pgsz > 0 && pending % pgsz == 0 && FitsPage(pgsz, iOff, n) && iOff <= o < iOff + n
    ensures InLockPage(pending, pgsz, o) <==> InLockPage(pending, pgsz, iOff)
  {
    var q := iOff / pgsz;
    assert iOff == pgsz * q + iOff % pgsz;
    QuotientUnique(o, pgsz, q, iOff % pgsz + (o - iOff));
    LockPageOffsets(pending, pgsz, o);
    LockPageOffsets(pending, pgsz, iOff);
  }
}
