/** The candidate samples of sqlite_stat4 and the preference between them. */
module Samples {
  import opened IndexRows

  datatype Sample = Sample(
    anEq: seq<nat>,
    anLt: seq<nat>,
    anDLt: seq<nat>,
    rowid: Rowid,
    isPSample: bool,
    iCol: nat,
    iHash: nat)

  predicate Shaped(nCol: nat, s: Sample) {
    nCol > 0 && |s.anEq| == nCol && |s.anLt| == nCol && |s.anDLt| == nCol
  }

  /** A sample whose inclusion is due to some column: it can be ranked. */
  predicate Ranked(nCol: nat, s: Sample) {
    Shaped(nCol, s) && s.iCol < nCol
  }

  /** Since full keys are unique, "rows less than" in the last column is the row's position. */
  function RowOf(s: Sample): nat
    requires |s.anLt| > 0
  {
    s.anLt[|s.anLt| - 1]
  }

  /** The size of the group that a non-periodic sample stands for. */
  function Score(nCol: nat, s: Sample): nat
    requires Ranked(nCol, s)
  {
    s.anEq[s.iCol]
  }

  predicate BetterFrom(nCol: nat, x: Sample, y: Sample, i: nat)
    requires Shaped(nCol, x) && Shaped(nCol, y)
    decreases nCol - i
  {
    if i >= nCol then x.iHash > y.iHash
    else if x.anEq[i] != y.anEq[i] then x.anEq[i] > y.anEq[i]
    else BetterFrom(nCol, x, y, i + 1)
  }

  predicate BetterPost(nCol: nat, x: Sample, y: Sample)
    requires Ranked(nCol, x) && Ranked(nCol, y)
  {
    BetterFrom(nCol, x, y, x.iCol + 1)
  }

  /** Larger groups first, then shorter prefixes, then larger trailing groups, then the hash. */
  predicate Better(nCol: nat, x: Sample, y: Sample)
    requires Ranked(nCol, x) && Ranked(nCol, y)
  {
    || Score(nCol, x) > Score(nCol, y)
    || (&& Score(nCol, x) == Score(nCol, y)
        && (|| x.iCol < y.iCol
            || (x.iCol == y.iCol && BetterPost(nCol, x, y))))
  }

  lemma {:induction false} BetterFromOrder(nCol: nat, x: Sample, y: Sample, z: Sample, i: nat)
    requires Shaped(nCol, x) && Shaped(nCol, y) && Shaped(nCol, z)
    ensures !BetterFrom(nCol, x, x, i)
    ensures BetterFrom(nCol, x, y, i) && BetterFrom(nCol, y, z, i) ==> BetterFrom(nCol, x, z, i)
    ensures BetterFrom(nCol, x, z, i) ==> BetterFrom(nCol, x, y, i) || BetterFrom(nCol, y, z, i)
    decreases nCol - i
  {
    if i < nCol {
      BetterFromOrder(nCol, x, y, z, i + 1);
    }
  }

  /** The preference is a strict weak order: irreflexive, transitive, and so is "not better". */
  lemma BetterIsStrictWeakOrder(nCol: nat, x: Sample, y: Sample, z: Sample)
    requires Ranked(nCol, x) && Ranked(nCol, y) && Ranked(nCol, z)
    ensures !Better(nCol, x, x)
    ensures Better(nCol, x, y) && Better(nCol, y, z) ==> Better(nCol, x, z)
    ensures !Better(nCol, x, y) && !Better(nCol, y, z) ==> !Better(nCol, x, z)
  {
    BetterFromOrder(nCol, x, y, z, x.iCol + 1);
  }

  lemma {:induction false} BetterFromDepends(nCol: nat, x: Sample, y: Sample, x': Sample, y': Sample, i: nat)
    requires Shaped(nCol, x) && Shaped(nCol, y) && Shaped(nCol, x') && Shaped(nCol, y')
    requires i <= nCol && x.anEq[i..] == x'.anEq[i..] && y.anEq[i..] == y'.anEq[i..]
    requires x.iHash == x'.iHash && y.iHash == y'.iHash
    ensures BetterFrom(nCol, x, y, i) == BetterFrom(nCol, x', y', i)
    decreases nCol - i
  {
    if i < nCol {
      assert x.anEq[i] == x.anEq[i..][0] && x'.anEq[i] == x'.anEq[i..][0];
      assert y.anEq[i] == y.anEq[i..][0] && y'.anEq[i] == y'.anEq[i..][0];
      assert x.anEq[i + 1..] == x.anEq[i..][1..] && x'.anEq[i + 1..] == x'.anEq[i..][1..];
      assert y.anEq[i + 1..] == y.anEq[i..][1..] && y'.anEq[i + 1..] == y'.anEq[i..][1..];
      BetterFromDepends(nCol, x, y, x', y', i + 1);
    }
  }

  /** What ranking looks at: the column, the counts from that column on, and the hash. */
  ghost predicate SameRank(nCol: nat, x: Sample, x': Sample) {
    && Ranked(nCol, x) && Ranked(nCol, x')
    && x.iCol == x'.iCol && x.iHash == x'.iHash
    && x.anEq[x.iCol..] == x'.anEq[x.iCol..]
  }

  lemma BetterDepends(nCol: nat, x: Sample, y: Sample, x': Sample, y': Sample)
    requires SameRank(nCol, x, x') && SameRank(nCol, y, y')
    ensures Better(nCol, x, y) == Better(nCol, x', y')
  {
    assert x.anEq[x.iCol] == x.anEq[x.iCol..][0] && x'.anEq[x.iCol] == x'.anEq[x.iCol..][0];
    assert y.anEq[y.iCol] == y.anEq[y.iCol..][0] && y'.anEq[y.iCol] == y'.anEq[y.iCol..][0];
    assert x.anEq[x.iCol + 1..] == x.anEq[x.iCol..][1..] && x'.anEq[x.iCol + 1..] == x'.anEq[x.iCol..][1..];
    assert y.anEq[y.iCol + 1..] == y.anEq[y.iCol..][1..] && y'.anEq[y.iCol + 1..] == y'.anEq[y.iCol..][1..];
    if x.iCol == y.iCol {
      BetterFromDepends(nCol, x, y, x', y', x.iCol + 1);
    }
  }

  /** The counts agree from column i up to column q. */
  ghost predicate Alike(x: Sample, y: Sample, i: nat, q: nat)
    requires q <= |x.anEq| && q <= |y.anEq|
  {
    forall j | i <= j < q :: x.anEq[j] == y.anEq[j]
  }

  /** The first column in which the counts differ decides, and the hash if there is none. */
  lemma {:induction false} FirstDifferenceDecides(nCol: nat, x: Sample, y: Sample, i: nat, q: nat)
    requires Shaped(nCol, x) && Shaped(nCol, y) && i <= q <= nCol && Alike(x, y, i, q)
    ensures q < nCol && x.anEq[q] != y.anEq[q] ==> (BetterFrom(nCol, x, y, i) <==> x.anEq[q] > y.anEq[q])
    ensures q == nCol ==> (BetterFrom(nCol, x, y, i) <==> x.iHash > y.iHash)
    decreases q - i
  {
    if i < q {
      FirstDifferenceDecides(nCol, x, y, i + 1, q);
    }
  }

  method SampleIsBetterPost(nCol: nat, pNew: Sample, pOld: Sample) returns (better: bool)
    requires Ranked(nCol, pNew) && Ranked(nCol, pOld) && pNew.iCol == pOld.iCol
    ensures better == BetterPost(nCol, pNew, pOld)
    ensures forall q | pNew.iCol < q < nCol && Alike(pNew, pOld, pNew.iCol + 1, q) && pNew.anEq[q] != pOld.anEq[q] ::
              better <==> pNew.anEq[q] > pOld.anEq[q]
    ensures Alike(pNew, pOld, pNew.iCol + 1, nCol) ==> (better <==> pNew.iHash > pOld.iHash)
  {
    var i := pNew.iCol + 1;
    while i < nCol
      invariant pNew.iCol < i <= nCol && Alike(pNew, pOld, pNew.iCol + 1, i)
      invariant BetterPost(nCol, pNew, pOld) == BetterFrom(nCol, pNew, pOld, i)
    {
      if pNew.anEq[i] > pOld.anEq[i] { return true; }
      if pNew.anEq[i] < pOld.anEq[i] { return false; }
      i := i + 1;
    }
    return pNew.iHash > pOld.iHash;
  }

  method SampleIsBetter(nCol: nat, pNew: Sample, pOld: Sample) returns (better: bool)
    requires Ranked(nCol, pNew) && Ranked(nCol, pOld)
    requires !pOld.isPSample && !pNew.isPSample
    ensures better == Better(nCol, pNew, pOld)
    ensures pNew.anEq[pNew.iCol] != pOld.anEq[pOld.iCol] ==>
              (better <==> pNew.anEq[pNew.iCol] > pOld.anEq[pOld.iCol])
    ensures pNew.anEq[pNew.iCol] == pOld.anEq[pOld.iCol] && pNew.iCol != pOld.iCol ==>
              (better <==> pNew.iCol < pOld.iCol)
    ensures pNew.iCol == pOld.iCol ==>
              forall q | pNew.iCol <= q < nCol && Alike(pNew, pOld, pNew.iCol, q) && pNew.anEq[q] != pOld.anEq[q] ::
                better <==> pNew.anEq[q] > pOld.anEq[q]
    ensures pNew.iCol == pOld.iCol && Alike(pNew, pOld, pNew.iCol, nCol) ==>
              (better <==> pNew.iHash > pOld.iHash)
  {
    var nEqNew := pNew.anEq[pNew.iCol];
    var nEqOld := pOld.anEq[pOld.iCol];
    if nEqNew > nEqOld { return true; }
    if nEqNew == nEqOld {
      if pNew.iCol < pOld.iCol { return true; }
      if pNew.iCol == pOld.iCol {
        better := SampleIsBetterPost(nCol, pNew, pOld);
        return;
      }
    }
    return false;
  }

  // ---- arrays of samples ----

  ghost predicate AllRanked(nCol: nat, a: seq<Sample>) {
    forall k | 0 <= k < |a| :: Ranked(nCol, a[k])
  }

  ghost predicate Ordered(nCol: nat, a: seq<Sample>)
    requires AllRanked(nCol, a)
  {
    forall k, l | 0 <= k < l < |a| :: RowOf(a[k]) < RowOf(a[l])
  }

  /** Entry m is non-periodic and no other non-periodic entry is worse. */
  ghost predicate IsMinimum(nCol: nat, a: seq<Sample>, m: nat)
    requires AllRanked(nCol, a)
  {
    && m < |a| && !a[m].isPSample
    && forall k | 0 <= k < |a| && !a[k].isPSample :: !Better(nCol, a[m], a[k])
  }

  function PeriodicCount(a: seq<Sample>): (n: nat)
    ensures n <= |a|
  {
    if a == [] then 0
    else PeriodicCount(a[..|a| - 1]) + if a[|a| - 1].isPSample then 1 else 0
  }

  lemma {:induction false} SomeNonPeriodic(a: seq<Sample>) returns (k: nat)
    requires PeriodicCount(a) < |a|
    ensures k < |a| && !a[k].isPSample
  {
    if a[|a| - 1].isPSample {
      k := SomeNonPeriodic(a[..|a| - 1]);
    } else {
      k := |a| - 1;
    }
  }

  lemma {:induction false} PeriodicCountAppend(a: seq<Sample>, b: seq<Sample>)
    ensures PeriodicCount(a + b) == PeriodicCount(a) + PeriodicCount(b)
  {
    if b == [] {
      assert a + b == a;
    } else {
      assert (a + b)[..|a + b| - 1] == a + b[..|b| - 1];
      PeriodicCountAppend(a, b[..|b| - 1]);
    }
  }

  /** Entry m removed, as memmove() closes the gap. */
  function Without(a: seq<Sample>, m: nat): (b: seq<Sample>)
    requires m < |a|
    ensures |b| == |a| - 1
    ensures forall k | 0 <= k < m :: b[k] == a[k]
    ensures forall k | m <= k < |b| :: b[k] == a[k + 1]
  {
    a[..m] + a[m + 1..]
  }

  lemma {:induction false} PeriodicCountWithout(a: seq<Sample>, m: nat)
    requires m < |a| && !a[m].isPSample
    ensures PeriodicCount(Without(a, m)) == PeriodicCount(a)
  {
    PeriodicCountAppend(a[..m], a[m + 1..]);
    PeriodicCountAppend(a[..m], [a[m]]);
    PeriodicCountAppend(a[..m] + [a[m]], a[m + 1..]);
    assert a == a[..m] + [a[m]] + a[m + 1..];
    assert [a[m]][..0] == [];
  }
}
