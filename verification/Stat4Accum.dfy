/** The accumulator behind stat_init(), stat_push() and stat_get() in the STAT4 configuration. */
module Stat4 {
  import opened Common
  import opened IndexRows
  import opened Samples
  import opened Stat4Invariant
  import opened Stat4Collection
  import opened Stat4Closing
  import opened Stat4Push
  import opened Stat4Choice
  import opened Stat4Selection
  import opened StatText

  function Seed(nCol: nat, total: nat): nat {
    (((0x689e962d * nCol) % TWO32) as bv32 ^ ((0xd0944565 * total) % TWO32) as bv32) as nat
  }

  /** What a search for entries that share a candidate's prefix can find. */
  datatype Sharing = PeriodicAt(p: nat) | PreferredAt(t: nat) | Nothing

  /** Which of the three count arrays of a sample is asked for. */
  datatype CountKind = GetNEq | GetNLt | GetNDLt

  ghost function CountList(nCol: nat, rows: seq<Row>, kind: CountKind, r: nat): seq<nat>
    requires IsIndex(nCol, rows) && r < |rows|
  {
    match kind
    case GetNEq => EqList(nCol, rows, r)
    case GetNLt => LtList(nCol, rows, r)
    case GetNDLt => DLtList(nCol, rows, r)
  }

  lemma {:induction false} PeriodicCountFlags(a: seq<Sample>, b: seq<Sample>)
    requires |a| == |b| && forall k | 0 <= k < |a| :: a[k].isPSample == b[k].isPSample
    ensures PeriodicCount(a) == PeriodicCount(b)
  {
    if a != [] {
      PeriodicCountFlags(a[..|a| - 1], b[..|b| - 1]);
    }
  }

  lemma AppendRanked(nCol: nat, b: seq<Sample>, s: Sample)
    requires AllRanked(nCol, b) && Ranked(nCol, s)
    ensures AllRanked(nCol, b + [s])
  {
  }

  lemma {:induction false} PeriodicCountInsert(a: seq<Sample>, mx: nat, iMin: nat, s: Sample)
    requires |a| >= mx ==> iMin < |a| && !a[iMin].isPSample
    ensures PeriodicCount(WithRoom(a, mx, iMin) + [s]) == PeriodicCount(a) + if s.isPSample then 1 else 0
  {
    if |a| >= mx {
      PeriodicCountWithout(a, iMin);
    }
    PeriodicCountAppend(WithRoom(a, mx, iMin), [s]);
    assert [s][..0] == [];
  }

  /** The array is never full of periodic samples. */
  lemma {:induction false} SomeIsEvictable(
      nCol: nat, rows: seq<Row>, total: nat, mx: nat, a: seq<Sample>, lo: int)
    requires IsIndex(nCol, rows) && |rows| <= total && mx > 0
    requires AllOk(nCol, rows, Spacing(total, mx), a, lo) && Ordered(nCol, a)
    ensures PeriodicCount(a) < mx
  {
    PeriodicSamplesBounded(nCol, rows, total, mx, a, lo);
  }

  lemma CandidateIsCounted(nCol: nat, rows: seq<Row>, best: Sample, i: nat)
    requires IsIndex(nCol, rows) && |rows| > 0 && BestOk(nCol, rows, best, i)
    ensures Candidate(nCol, rows, best, i).anEq[i] > 0
  {
    NEqPositive(nCol, rows, |rows| - 1, i);
  }

  /** What sampleInsert() asserts about a candidate holds whenever one is offered. */
  lemma {:induction false} InsertAllowed(
      nCol: nat, rows: seq<Row>, total: nat, mx: nat, period: nat, a: seq<Sample>, best: Sample, i: nat)
    requires IsIndex(nCol, rows) && 0 < |rows| <= total && mx > 0 && period == Spacing(total, mx)
    requires AllOk(nCol, rows, period, a, i) && Ordered(nCol, a) && BestOk(nCol, rows, best, i)
    ensures AllRanked(nCol, a)
    ensures PeriodicCount(a) < mx
    ensures Candidate(nCol, rows, best, i).anEq[i] > 0
    ensures forall k | 0 <= k < |a| && !a[k].isPSample && a[k].anEq[i] == 0 ::
              a[k].iCol > i && Better(nCol, Candidate(nCol, rows, best, i), a[k])
    ensures NoneOpen(nCol, a, i) ==> forall k | 0 <= k < |a| :: RowOf(a[k]) < RowOf(best)
  {
    SomeIsEvictable(nCol, rows, total, mx, a, i);
    CandidateIsCounted(nCol, rows, best, i);
    CandidateBeatsAllOpen(nCol, rows, period, a, best, i);
    if NoneOpen(nCol, a, i) {
      CandidateComesLastOfAll(nCol, rows, period, a, best, i);
    }
  }

  class Stat4Accum {
    const nCol: nat
    const nKeyCol: nat
    const mxSample: nat
    const nPSample: nat
    ghost const total: nat   // the number of rows announced to stat_init()
    ghost const h: Numbers   // the numbers drawn for the rows

    var nRow: nat
    var current: Sample
    var iPrn: nat
    var aBest: seq<Sample>
    var iMin: nat
    var a: seq<Sample>       // the first nSample entries of the sample array
    var iGet: int
    ghost var rows: seq<Row> // the rows pushed so far

    /** What the constructor fixes and no later call changes. */
    ghost predicate Configured() {
      && nCol > 0 && 0 < nKeyCol <= nCol && mxSample > 0
      && nPSample == Spacing(total, mxSample)
    }

    /** The generator has drawn one number for each row. */
    ghost predicate Drawing()
      reads this`iPrn, this`rows
    {
      h == NumbersFrom(Seed(nCol, total)) && iPrn == Drawn(Seed(nCol, total), |rows|)
    }

    /** Between pushes: no count of an open group is filled in, all others are exact. */
    ghost predicate Scanning()
      reads this
    {
      && Configured()
      && IsIndex(nCol, rows) && nRow == |rows| <= total
      && |aBest| == nCol
      && iGet == -1 && Drawing()
      && (|rows| == 0 ==> Empty())
      && (|rows| > 0 ==> Running())
    }

    ghost predicate Empty()
      reads this
    {
      && Shaped(nCol, current) && !current.isPSample && a == []
      && (forall j | 0 <= j < nCol :: current.anLt[j] == 0 && current.anDLt[j] == 0)
    }

    ghost predicate Running()
      requires Configured() && IsIndex(nCol, rows) && |rows| > 0 && |aBest| == nCol
      reads this
    {
      && CurrentOk(nCol, rows, current)
      && (forall i | 0 <= i < nCol - 1 :: BestChosen(nCol, rows, h, aBest[i], i))
      && Collected(nCol, rows, nPSample, mxSample, a, iMin, nCol - 2)
      && Selected(nCol, rows, h, mxSample, a, nCol - 1)
    }

    /** In every state between pushes a count is zero exactly when its group is still open, and
        is the final count otherwise. */
    lemma BetweenPushes(k: nat, j: nat)
      requires Scanning() && |rows| > 0 && k < |a| && j < nCol
      ensures RowOf(a[k]) < |rows|
      ensures a[k].anEq[j] == 0 <==> Open(nCol, rows, RowOf(a[k]), j)
      ensures a[k].anEq[j] != 0 ==> a[k].anEq[j] == NEq(nCol, rows, RowOf(a[k]), j)
    {
      assert SampleOk(nCol, rows, nPSample, a[k], nCol - 2);
      assert CountOk(nCol, rows, a[k], nCol - 2, j);
      NEqPositive(nCol, rows, RowOf(a[k]), j);
    }

    /** In every column the rows below the current prefix and those sharing it are all rows. */
    lemma RunningTotals(j: nat)
      requires Scanning() && |rows| > 0 && j < nCol
      ensures current.anLt[j] + current.anEq[j] == nRow
    {
      LastRowTotals(nCol, rows, j);
    }

    constructor (nCol: nat, nKeyCol: nat, total: nat, mxSample: nat)
      requires 0 < nKeyCol <= nCol && mxSample > 0
      ensures Scanning() && rows == []
      ensures h == NumbersFrom(Seed(nCol, total))
      ensures this.nCol == nCol && this.nKeyCol == nKeyCol && this.total == total && this.mxSample == mxSample
    {
      this.nCol, this.nKeyCol, this.total, this.mxSample := nCol, nKeyCol, total, mxSample;
      this.nPSample := total / (mxSample / 3 + 1) + 1;
      this.h := NumbersFrom(Seed(nCol, total));
      var zero := seq(nCol, _ => 0);
      nRow, iPrn, iMin, iGet := 0, Seed(nCol, total), 0, -1;
      current := Sample(zero, zero, zero, IntRowid(0), false, 0, 0);
      aBest := seq(nCol, (i: nat) => Sample(zero, zero, zero, IntRowid(0), false, i, 0));
      a := [];
      rows := [];
    }

    /** Look for entries that share pNew's prefix, from the last entry back. */
    method FindSharing(pNew: Sample) returns (found: Sharing)
      requires Ranked(nCol, pNew) && !pNew.isPSample && AllRanked(nCol, a)
      requires forall k | 0 <= k < |a| && !a[k].isPSample && a[k].anEq[pNew.iCol] == 0 ::
                 a[k].iCol > pNew.iCol && Better(nCol, pNew, a[k])
      ensures found.PeriodicAt? ==> found.p < |a| && a[found.p].isPSample && a[found.p].anEq[pNew.iCol] == 0
      ensures found.PreferredAt? ==> IsUpgrade(nCol, a, pNew.iCol, found.t)
      ensures found.Nothing? ==> NoneOpen(nCol, a, pNew.iCol)
    {
      var i := |a| - 1;
      found := Nothing;
      while i >= 0
        invariant -1 <= i < |a|
        invariant !found.PeriodicAt?
        invariant found.Nothing? ==> forall k | i < k < |a| :: a[k].anEq[pNew.iCol] != 0
        invariant found.PreferredAt? ==> i < found.t < |a| && a[found.t].anEq[pNew.iCol] == 0 && !a[found.t].isPSample
        invariant found.PreferredAt? ==> forall k | i < k < |a| && a[k].anEq[pNew.iCol] == 0 ::
                    !a[k].isPSample && !Better(nCol, a[k], a[found.t])
      {
        if a[i].anEq[pNew.iCol] == 0 {
          if a[i].isPSample { return PeriodicAt(i); }
          assert a[i].iCol > pNew.iCol;
          assert Better(nCol, pNew, a[i]);
          BetterIsStrictWeakOrder(nCol, a[i], a[i], a[i]);
          if found.Nothing? {
            found := PreferredAt(i);
          } else {
            var better := SampleIsBetter(nCol, a[i], a[found.t]);
            if better {
              forall k | i <= k < |a| && a[k].anEq[pNew.iCol] == 0
                ensures !Better(nCol, a[k], a[i])
              {
                BetterIsStrictWeakOrder(nCol, a[k], a[i], a[found.t]);
              }
              found := PreferredAt(i);
            }
          }
        }
        i := i - 1;
      }
    }

    /** The least preferred non-periodic entry. */
    method FindNewMin() returns (m: nat)
      requires AllRanked(nCol, a) && PeriodicCount(a) < |a|
      ensures IsMinimum(nCol, a, m)
    {
      ghost var witness_ := SomeNonPeriodic(a);
      var best := -1;
      var i := 0;
      while i < |a|
        invariant 0 <= i <= |a| && -1 <= best < i
        invariant best < 0 ==> forall k | 0 <= k < i :: a[k].isPSample
        invariant best >= 0 ==> !a[best].isPSample
        invariant best >= 0 ==> forall k | 0 <= k < i && !a[k].isPSample :: !Better(nCol, a[best], a[k])
      {
        if !a[i].isPSample {
          BetterIsStrictWeakOrder(nCol, a[i], a[i], a[i]);
          if best < 0 {
            best := i;
          } else {
            var better := SampleIsBetter(nCol, a[best], a[i]);
            if better {
              forall k | 0 <= k <= i && !a[k].isPSample
                ensures !Better(nCol, a[i], a[k])
              {
                BetterIsStrictWeakOrder(nCol, a[best], a[i], a[k]);
              }
              best := i;
            }
          }
        }
        i := i + 1;
      }
      assert best >= 0;
      m := best;
    }

    /** A full array needs its minimum. */
    method RenewMinimum()
      requires AllRanked(nCol, a) && PeriodicCount(a) < mxSample
      modifies this`iMin
      ensures |a| >= mxSample ==> IsMinimum(nCol, a, iMin)
    {
      if |a| >= mxSample { iMin := FindNewMin(); }
    }

    /** Entry t now stands for pNew's group. */
    method UpgradeEntry(t: nat, pNew: Sample)
      requires Ranked(nCol, pNew) && AllRanked(nCol, a) && t < |a|
      requires PeriodicCount(a) < mxSample
      modifies this`a, this`iMin
      ensures a == old(a)[t := Upgraded(nCol, old(a)[t], pNew.iCol, pNew.anEq[pNew.iCol])]
      ensures AllRanked(nCol, a) && (|a| >= mxSample ==> IsMinimum(nCol, a, iMin))
    {
      a := a[t := a[t].(iCol := pNew.iCol, anEq := a[t].anEq[pNew.iCol := pNew.anEq[pNew.iCol]])];
      PeriodicCountFlags(old(a), a);
      RenewMinimum();
    }

    /** Remove the minimum if the array is full, then append a copy of pNew. */
    method AppendSample(pNew: Sample, nEqZero: nat)
      requires Ranked(nCol, pNew) && nEqZero <= nCol
      requires AllRanked(nCol, a) && |a| <= mxSample && mxSample > 0
      requires |a| == mxSample ==> IsMinimum(nCol, a, iMin)
      requires PeriodicCount(a) + (if pNew.isPSample then 1 else 0) < mxSample
      requires forall k | 0 <= k < |a| :: RowOf(a[k]) < RowOf(pNew)
      modifies this`a, this`iMin
      ensures a == WithRoom(old(a), mxSample, old(iMin)) + [Zeroed(pNew, nEqZero)]
      ensures AllRanked(nCol, a) && (|a| >= mxSample ==> IsMinimum(nCol, a, iMin))
    {
      var s := Zeroed(pNew, nEqZero);
      PeriodicCountInsert(a, mxSample, iMin, s);
      AppendCopy(s);
    }

    /** Make room if need be, and put s behind the entries that are left. */
    method AppendCopy(s: Sample)
      requires Ranked(nCol, s) && AllRanked(nCol, a) && (|a| >= mxSample ==> iMin < |a|)
      requires PeriodicCount(WithRoom(a, mxSample, iMin) + [s]) < mxSample
      requires forall k | 0 <= k < |a| :: RowOf(a[k]) < RowOf(s)
      modifies this`a, this`iMin
      ensures a == WithRoom(old(a), mxSample, old(iMin)) + [s]
      ensures AllRanked(nCol, a) && (|a| >= mxSample ==> IsMinimum(nCol, a, iMin))
    {
      MakeRoom(RowOf(s));
      assert |a| == 0 || RowOf(a[|a| - 1]) < RowOf(s);
      AppendRanked(nCol, a, s);
      a := a + [s];
      RenewMinimum();
    }

    /** Remove the minimum if the array is full. */
    method MakeRoom(ghost r: nat)
      requires AllRanked(nCol, a) && (|a| >= mxSample ==> iMin < |a|)
      requires forall k | 0 <= k < |a| :: RowOf(a[k]) < r
      modifies this`a
      ensures a == WithRoom(old(a), mxSample, iMin) && AllRanked(nCol, a)
      ensures forall k | 0 <= k < |a| :: RowOf(a[k]) < r
    {
      WithRoomComesFirst(nCol, mxSample, a, iMin, r);
      if |a| >= mxSample {
        a := a[..iMin] + a[iMin + 1..];
      }
    }

    /** Put pNew into the array, upgrade an entry that shares its prefix instead, or
        leave the array alone because a periodic sample of that prefix is in it. */
    method SampleInsert(pNew: Sample, nEqZero: nat) returns (ghost found: Sharing)
      requires Ranked(nCol, pNew) && nEqZero <= nCol
      requires AllRanked(nCol, a) && |a| <= mxSample && mxSample > 0
      requires |a| == mxSample ==> IsMinimum(nCol, a, iMin)
      requires PeriodicCount(a) + (if pNew.isPSample then 1 else 0) < mxSample
      requires !pNew.isPSample ==> pNew.anEq[pNew.iCol] > 0
      requires !pNew.isPSample ==> forall k | 0 <= k < |a| && !a[k].isPSample && a[k].anEq[pNew.iCol] == 0 ::
                 a[k].iCol > pNew.iCol && Better(nCol, pNew, a[k])
      requires pNew.isPSample || NoneOpen(nCol, a, pNew.iCol) ==>
                 forall k | 0 <= k < |a| :: RowOf(a[k]) < RowOf(pNew)
      modifies this`a, this`iMin
      ensures pNew.isPSample ==> found == Nothing
      ensures found.PeriodicAt? ==>
                found.p < |old(a)| && old(a)[found.p].isPSample && old(a)[found.p].anEq[pNew.iCol] == 0
      ensures found.PeriodicAt? ==> a == old(a) && iMin == old(iMin)
      ensures found.PreferredAt? ==> IsUpgrade(nCol, old(a), pNew.iCol, found.t)
      ensures found.PreferredAt? ==>
                a == old(a)[found.t := Upgraded(nCol, old(a)[found.t], pNew.iCol, pNew.anEq[pNew.iCol])]
      ensures found.Nothing? && !pNew.isPSample ==> NoneOpen(nCol, old(a), pNew.iCol)
      ensures found.Nothing? ==> a == WithRoom(old(a), mxSample, old(iMin)) + [Zeroed(pNew, nEqZero)]
      ensures AllRanked(nCol, a) && (|a| >= mxSample ==> IsMinimum(nCol, a, iMin))
    {
      found := Nothing;
      if !pNew.isPSample {
        var sharing := FindSharing(pNew);
        found := sharing;
        if sharing.PeriodicAt? { return; }
        if sharing.PreferredAt? {
          UpgradeEntry(sharing.t, pNew);
          return;
        }
      }
      AppendSample(pNew, nEqZero);
    }

    /** The candidate of column i, whose group is now closed, is offered to the array. */
    method OfferBest(i: nat, ghost q: nat)
      requires Configured() && IsIndex(nCol, rows) && 0 < |rows| <= total && |aBest| == nCol
      requires CurrentOk(nCol, rows, current) && q == i + 1 < nCol
      requires ClosedFrom(nCol, rows, nPSample, mxSample, a, iMin, q)
      requires BestChosen(nCol, rows, h, aBest[i], i) && Selected(nCol, rows, h, mxSample, a, q)
      modifies this`a, this`iMin, this`aBest
      ensures |aBest| == nCol && forall q | 0 <= q < i :: aBest[q] == old(aBest)[q]
      ensures ClosedFrom(nCol, rows, nPSample, mxSample, a, iMin, i) && Selected(nCol, rows, h, mxSample, a, i)
    {
      ghost var best, a0, min0 := aBest[i], a, iMin;
      OfferedIsCandidate(nCol, rows, current, best, i);
      var pBest := aBest[i].(anEq := aBest[i].anEq[i := current.anEq[i]]);
      aBest := aBest[i := pBest];
      InsertIfPreferred(pBest, best, i);
      OfferSelects(nCol, rows, h, nPSample, mxSample, best, i, a0, min0, a);
    }

    /** Unless the array is full of samples that are at least as good. */
    method InsertIfPreferred(pBest: Sample, ghost best: Sample, i: nat)
      requires Configured() && IsIndex(nCol, rows) && 0 < |rows| <= total && i < nCol - 1
      requires BeforeClosing(nCol, rows, nPSample, mxSample, a, iMin, best, i)
      requires pBest == Candidate(nCol, rows, best, i)
      modifies this`a, this`iMin
      ensures ClosedFrom(nCol, rows, nPSample, mxSample, a, iMin, i)
      ensures AfterOffer(nCol, rows, mxSample, best, i, old(a), old(iMin), a)
    {
      if |a| >= mxSample {
        var better := SampleIsBetter(nCol, pBest, a[iMin]);
        if !better {
          RejectCloses(nCol, rows, nPSample, mxSample, a, iMin, best, i);
          return;
        }
      }
      InsertBest(pBest, best, i);
    }

    method InsertBest(pBest: Sample, ghost best: Sample, i: nat)
      requires Configured() && IsIndex(nCol, rows) && 0 < |rows| <= total && i < nCol - 1
      requires BeforeClosing(nCol, rows, nPSample, mxSample, a, iMin, best, i)
      requires pBest == Candidate(nCol, rows, best, i)
      requires |a| == mxSample ==> Better(nCol, pBest, a[iMin])
      modifies this`a, this`iMin
      ensures ClosedFrom(nCol, rows, nPSample, mxSample, a, iMin, i)
      ensures AfterOffer(nCol, rows, mxSample, best, i, old(a), old(iMin), a)
    {
      ghost var a0, min0 := a, iMin;
      InsertAllowed(nCol, rows, total, mxSample, nPSample, a, best, i);
      ghost var found := SampleInsert(pBest, i);
      if found.PeriodicAt? {
        PeriodicPresentKeeps(nCol, rows, nPSample, mxSample, a0, min0, best, i, found.p);
      } else if found.PreferredAt? {
        UpgradeKeeps(nCol, rows, nPSample, mxSample, a0, min0, best, i, found.t, a);
      } else {
        InsertKeeps(nCol, rows, nPSample, mxSample, a0, min0, best, i,
                    WithRoom(a0, mxSample, min0), Zeroed(Candidate(nCol, rows, best, i), i));
      }
      OneMoreClosed(nCol, rows, nPSample, mxSample, a, iMin, i);
    }

    /** Fill in the zero counts from column iChng on. */
    method FillClosed(iChng: nat)
      requires Shaped(nCol, current) && forall k | 0 <= k < |a| :: Shaped(nCol, a[k])
      modifies this`a
      ensures a == FilledAll(nCol, current, old(a), iChng)
    {
      var i := |a| - 1;
      while i >= 0
        invariant -1 <= i < |a| == |old(a)|
        invariant forall k | 0 <= k <= i :: a[k] == old(a)[k]
        invariant forall k | i < k < |a| :: a[k] == Filled(nCol, current, old(a)[k], iChng)
      {
        var anEq := a[i].anEq;
        var j := iChng;
        while j < nCol
          invariant iChng <= j
          invariant |anEq| == nCol
          invariant forall q | 0 <= q < nCol ::
                      anEq[q] == if iChng <= q < j && a[i].anEq[q] == 0 then current.anEq[q] else a[i].anEq[q]
        {
          if anEq[j] == 0 { anEq := anEq[j := current.anEq[j]]; }
          j := j + 1;
        }
        assert anEq == Filled(nCol, current, a[i], iChng).anEq;
        a := a[i := a[i].(anEq := anEq)];
        i := i - 1;
      }
      assert a == FilledAll(nCol, current, old(a), iChng);
    }

    /** Offer the candidates of the columns from the last but one back to iChng. */
    method OfferClosed(iChng: nat)
      requires Configured() && IsIndex(nCol, rows) && 0 < |rows| <= total && |aBest| == nCol && iChng < nCol
      requires CurrentOk(nCol, rows, current)
      requires forall q | 0 <= q < nCol - 1 :: BestChosen(nCol, rows, h, aBest[q], q)
      requires ClosedFrom(nCol, rows, nPSample, mxSample, a, iMin, nCol - 1)
      requires Selected(nCol, rows, h, mxSample, a, nCol - 1)
      modifies this`a, this`iMin, this`aBest
      ensures |aBest| == nCol && forall q | 0 <= q < iChng :: aBest[q] == old(aBest)[q]
      ensures ClosedFrom(nCol, rows, nPSample, mxSample, a, iMin, iChng) && Selected(nCol, rows, h, mxSample, a, iChng)
    {
      ghost var best := aBest;
      var i := nCol - 1;
      while i > iChng
        invariant iChng <= i < nCol
        invariant |aBest| == nCol && forall q | 0 <= q < i :: aBest[q] == best[q]
        invariant ClosedFrom(nCol, rows, nPSample, mxSample, a, iMin, i) && Selected(nCol, rows, h, mxSample, a, i)
      {
        ghost var q := i;
        i := i - 1;
        assert BestChosen(nCol, rows, h, best[i], i);
        OfferBest(i, q);
      }
    }

    /** The groups of the columns from iChng on have ended with the current row. */
    method SamplePushPrevious(iChng: nat)
      requires Configured() && IsIndex(nCol, rows) && 0 < |rows| <= total && |aBest| == nCol
      requires Running() && iChng < nCol
      modifies this`a, this`iMin, this`aBest
      ensures |aBest| == nCol && forall q | 0 <= q < iChng :: aBest[q] == old(aBest)[q]
      ensures Collected(nCol, rows, nPSample, mxSample, a, iMin, iChng - 1)
      ensures forall k | 0 <= k < |a| :: ValidFrom(nCol, rows, a[k], iChng)
      ensures Selected(nCol, rows, h, mxSample, a, iChng)
    {
      NothingClosedYet(nCol, rows, nPSample, mxSample, a, iMin);
      OfferClosed(iChng);
      ghost var collected := a;
      FillClosed(iChng);
      FillKeeps(nCol, rows, nPSample, mxSample, current, collected, iMin, iChng, a);
      FillSelects(nCol, rows, h, nPSample, mxSample, current, collected, iChng, a);
    }

    /** Bring anEq[], anLt[] and anDLt[] forward to the new row. */
    method AdvanceCounts(iChng: nat)
      requires Shaped(nCol, current) && iChng < nCol
      modifies this`current
      ensures Advanced(nCol, old(current), current, iChng)
      ensures current.isPSample == old(current.isPSample)
    {
      var anEq, anLt, anDLt := current.anEq, current.anLt, current.anDLt;
      var i := 0;
      while i < iChng
        invariant 0 <= i <= iChng && |anEq| == nCol
        invariant forall j | 0 <= j < nCol :: anEq[j] == current.anEq[j] + if j < i then 1 else 0
      {
        anEq := anEq[i := anEq[i] + 1];
        i := i + 1;
      }
      while i < nCol
        invariant iChng <= i <= nCol && |anEq| == |anLt| == |anDLt| == nCol
        invariant forall j | 0 <= j < nCol ::
                    anEq[j] == if j < iChng then current.anEq[j] + 1 else if j < i then 1 else current.anEq[j]
        invariant forall j | 0 <= j < nCol ::
                    anLt[j] == current.anLt[j] + if iChng <= j < i then current.anEq[j] else 0
        invariant forall j | 0 <= j < nCol :: anDLt[j] == current.anDLt[j] + if iChng <= j < i then 1 else 0
      {
        anDLt := anDLt[i := anDLt[i] + 1];
        anLt := anLt[i := anLt[i] + anEq[i]];
        anEq := anEq[i := 1];
        i := i + 1;
      }
      current := current.(anEq := anEq, anLt := anLt, anDLt := anDLt);
    }

    /** Is the row at position nLt one of the evenly spaced ones? */
    method IsSpaced(nLt: nat) returns (b: bool)
      requires nPSample > 0
      ensures b <==> IsPeriodic(nPSample, nLt)
    {
      b := nLt / nPSample != (nLt + 1) / nPSample;
      SpacingTest(nPSample, nLt);
    }

    /** Take the new row as a periodic sample if it is one of the evenly spaced rows. */
    method TakePeriodic()
      requires Configured() && IsIndex(nCol, rows) && 0 < |rows| <= total
      requires CurrentOk(nCol, rows, current) && ArrivedAt(nCol, rows, nPSample, mxSample, a, iMin)
      requires current.iHash == h(|rows| - 1) && Selected(nCol, rows, h, mxSample, a, nCol - 1)
      modifies this`a, this`iMin, this`current
      ensures CurrentOk(nCol, rows, current) && current.iHash == h(|rows| - 1)
      ensures Collected(nCol, rows, nPSample, mxSample, a, iMin, nCol - 2)
      ensures Selected(nCol, rows, h, mxSample, a, nCol - 1)
    {
      var isSpaced := IsSpaced(current.anLt[nCol - 1]);
      if isSpaced {
        ghost var cur := current;
        current := current.(isPSample := true, iCol := 0);
        ghost var s := Zeroed(current, nCol - 1);
        PeriodicCandidate(nCol, rows, nPSample, cur, current, s);
        TakeSample(s);
        current := current.(isPSample := false);
      } else {
        NotPeriodicTaken(nCol, rows, nPSample, mxSample, a, iMin);
      }
    }

    method TakeSample(ghost s: Sample)
      requires Configured() && IsIndex(nCol, rows) && 0 < |rows| <= total
      requires ArrivedAt(nCol, rows, nPSample, mxSample, a, iMin)
      requires Ranked(nCol, current) && current.isPSample && s == Zeroed(current, nCol - 1)
      requires SampleOk(nCol, rows, nPSample, s, nCol - 2) && RowOf(s) == |rows| - 1
      requires EntryChosen(nCol, rows, h, s) && Selected(nCol, rows, h, mxSample, a, nCol - 1)
      modifies this`a, this`iMin
      ensures Collected(nCol, rows, nPSample, mxSample, a, iMin, nCol - 2)
      ensures Selected(nCol, rows, h, mxSample, a, nCol - 1)
    {
      ghost var a0, min0 := a, iMin;
      InsertPeriodic(s);
      PeriodicTaken(nCol, rows, nPSample, mxSample, a0, min0, s, a, iMin);
      PeriodicSelects(nCol, rows, h, nPSample, mxSample, a0, min0, s, a);
    }

    method InsertPeriodic(ghost s: Sample)
      requires Configured() && IsIndex(nCol, rows) && 0 < |rows| <= total
      requires ArrivedAt(nCol, rows, nPSample, mxSample, a, iMin)
      requires Ranked(nCol, current) && current.isPSample && s == Zeroed(current, nCol - 1)
      requires SampleOk(nCol, rows, nPSample, s, nCol - 2) && RowOf(s) == |rows| - 1
      modifies this`a, this`iMin
      ensures |old(a)| >= mxSample ==> old(iMin) < |old(a)|
      ensures a == WithRoom(old(a), mxSample, old(iMin)) + [s]
      ensures AllRanked(nCol, a) && (|a| == mxSample ==> IsMinimum(nCol, a, iMin))
    {
      PeriodicFits(nCol, rows, total, mxSample, a, s, nCol - 2);
      ghost var found := SampleInsert(current, nCol - 1);
    }

    /** Candidate q was chosen from the rows before the new one, and the new row is in its group. */
    ghost predicate CandidateFrom(iChng: nat, before: seq<Row>, row: Row, best: Sample, q: nat) {
      && q < nCol - 1
      && (q < iChng ==>
            && Extends(nCol, before, row) && iChng == Diff(before[|before| - 1].key, row.key)
            && BestChosen(nCol, before, h, best, q))
    }

    /** Let the new row compete for the candidate of column i, and keep the one that is chosen. */
    method UpdateBestOf(i: nat, iChng: nat, ghost before: seq<Row>, ghost row: Row)
      requires nCol > 0 && IsIndex(nCol, rows) && |rows| > 0 && |aBest| == nCol
      requires CurrentOk(nCol, rows, current) && current.iCol == i < nCol - 1 && current.iHash == h(|before|)
      requires rows == before + [row] && IsIndex(nCol, before) && Continues(iChng, before, row)
      requires CandidateFrom(iChng, before, row, aBest[i], i)
      modifies this`aBest
      ensures |aBest| == nCol && BestChosen(nCol, rows, h, aBest[i], i)
      ensures forall q | 0 <= q < nCol && q != i :: aBest[q] == old(aBest)[q]
    {
      if i >= iChng {
        NewGroupChosen(nCol, before, row, h, current, i);
        aBest := aBest[i := current];
      } else {
        var better := SampleIsBetterPost(nCol, current, aBest[i]);
        if better {
          BetterIsChosen(nCol, before, row, h, current, aBest[i], i);
          aBest := aBest[i := current];
        } else {
          UnbeatenIsChosen(nCol, before, row, h, current, aBest[i], i);
        }
      }
    }

    /** The row continues the scan, and iChng is the left-most column in which it differs from the
        row before. */
    ghost predicate Continues(iChng: nat, before: seq<Row>, row: Row) {
      before != [] ==> Extends(nCol, before, row) && iChng == Diff(before[|before| - 1].key, row.key)
    }

    /** Let the new row compete for the candidate of each column but the last. */
    method UpdateBest(iChng: nat, ghost before: seq<Row>, ghost row: Row)
      requires nCol > 0 && IsIndex(nCol, rows) && |rows| > 0 && |aBest| == nCol
      requires rows == before + [row] && IsIndex(nCol, before) && Continues(iChng, before, row)
      requires CurrentOk(nCol, rows, current) && current.iHash == h(|before|)
      requires forall q | 0 <= q < nCol - 1 :: CandidateFrom(iChng, before, row, aBest[q], q)
      modifies this`aBest, this`current
      ensures CurrentOk(nCol, rows, current)
      ensures |aBest| == nCol && forall i | 0 <= i < nCol - 1 :: BestChosen(nCol, rows, h, aBest[i], i)
    {
      ghost var best := aBest;
      var i := 0;
      while i < nCol - 1
        invariant 0 <= i <= nCol - 1 && |aBest| == nCol
        invariant CurrentOk(nCol, rows, current) && current.iHash == h(|before|)
        invariant forall q | 0 <= q < i :: BestChosen(nCol, rows, h, aBest[q], q)
        invariant forall q | i <= q < nCol :: aBest[q] == best[q]
      {
        CurrentForColumn(nCol, rows, current, i);
        current := current.(iCol := i);
        assert CandidateFrom(iChng, before, row, best[i], i);
        UpdateBestOf(i, iChng, before, row);
        i := i + 1;
      }
    }

    /** The first row starts every group. */
    method StartCounts()
      requires Shaped(nCol, current)
      modifies this`current
      ensures current == old(current).(anEq := current.anEq) && |current.anEq| == nCol
      ensures forall j | 0 <= j < nCol :: current.anEq[j] == 1
    {
      var i := 0;
      var anEq := current.anEq;
      while i < nCol
        invariant 0 <= i <= nCol && |anEq| == nCol && forall j | 0 <= j < i :: anEq[j] == 1
      {
        anEq := anEq[i := 1];
        i := i + 1;
      }
      current := current.(anEq := anEq);
    }

    /** Draw the number of the next row. */
    method DrawNumber()
      requires Drawing()
      modifies this`iPrn
      ensures iPrn == Drawn(Seed(nCol, total), |rows| + 1) == h(|rows|)
    {
      iPrn := (iPrn * 1103515245 + 12345) % TWO32;
    }

    /** Make the new row the current one. */
    method MakeCurrent(iChng: nat, rowid: Rowid, ghost row: Row)
      requires |rows| > 0 && row.rowid == rowid && CurrentAt(iChng, row) && Drawing()
      modifies this`current, this`nRow, this`iPrn, this`rows
      ensures rows == old(rows) + [row] && nRow == old(nRow) + 1
      ensures Drawing() && current.iHash == h(|rows| - 1)
      ensures IsIndex(nCol, rows) && CurrentOk(nCol, rows, current)
    {
      AdvanceTo(iChng, rowid, row);
      TakeNumber(row);
      rows := rows + [row];
    }

    method TakeNumber(ghost row: Row)
      requires Drawing() && IsIndex(nCol, rows + [row]) && CurrentOk(nCol, rows + [row], current)
      modifies this`current, this`iPrn
      ensures CurrentOk(nCol, rows + [row], current) && current.iHash == iPrn
      ensures iPrn == Drawn(Seed(nCol, total), |rows| + 1) == h(|rows|)
    {
      ghost var cur := current;
      DrawNumber();
      current := current.(iHash := iPrn);
      CurrentWithNumber(nCol, rows + [row], cur, iPrn);
    }

    method AdvanceTo(iChng: nat, rowid: Rowid, ghost row: Row)
      requires |rows| > 0 && row.rowid == rowid && CurrentAt(iChng, row)
      modifies this`current, this`nRow
      ensures nRow == old(nRow) + 1
      ensures CurrentOk(nCol, rows + [row], current)
    {
      ghost var cur := current;
      AdvanceCounts(iChng);
      nRow := nRow + 1;
      current := current.(rowid := rowid);
      AdvancedOk(nCol, rows, row, cur, current, iChng);
    }

    ghost predicate CurrentAt(iChng: nat, row: Row)
      reads this
    {
      && Extends(nCol, rows, row) && iChng < nCol && iChng == Diff(rows[|rows| - 1].key, row.key)
      && CurrentOk(nCol, rows, current)
    }

    /** Close the groups that ended, and make the new row the current one. */
    method ArriveNext(iChng: nat, rowid: Rowid, ghost row: Row)
      requires Scanning() && 0 < |rows| < total && row.rowid == rowid
      requires Extends(nCol, rows, row) && iChng == Diff(rows[|rows| - 1].key, row.key)
      modifies this
      ensures rows == old(rows) + [row] && nRow == |rows| && iGet == -1 && Drawing()
      ensures current.iHash == h(|rows| - 1) && Selected(nCol, rows, h, mxSample, a, nCol - 1)
      ensures |aBest| == nCol && forall q | 0 <= q < iChng :: aBest[q] == old(aBest)[q]
      ensures CurrentOk(nCol, rows, current) && ArrivedAt(nCol, rows, nPSample, mxSample, a, iMin)
    {
      ExtendsAscends(nCol, rows, row);
      SamplePushPrevious(iChng);
      PushKeeps(nCol, rows, row, nPSample, mxSample, a, iMin, iChng);
      PushSelects(nCol, rows, row, h, nPSample, mxSample, a, iChng);
      MakeCurrent(iChng, rowid, row);
    }

    method StartWith(rowid: Rowid, ghost row: Row)
      requires Empty() && rows == [] && row.rowid == rowid && IsIndex(nCol, [row])
      modifies this`current, this`nRow
      ensures nRow == old(nRow) + 1
      ensures rows + [row] == [row] && CurrentOk(nCol, rows + [row], current)
    {
      StartCounts();
      nRow := nRow + 1;
      current := current.(rowid := rowid);
      FirstRowOk(nCol, [row], current);
      assert rows + [row] == [row];
    }

    method ArriveFirst(rowid: Rowid, ghost row: Row)
      requires Scanning() && |rows| == 0 < total && row.rowid == rowid && IsIndex(nCol, [row])
      modifies this
      ensures rows == [row] && nRow == 1 && iGet == -1 && Drawing()
      ensures current.iHash == h(|rows| - 1) && Selected(nCol, rows, h, mxSample, a, nCol - 1)
      ensures |aBest| == nCol
      ensures CurrentOk(nCol, rows, current) && ArrivedAt(nCol, rows, nPSample, mxSample, a, iMin)
    {
      StartWith(rowid, row);
      TakeNumber(row);
      rows := [row];
      FirstRowSelects(nCol, rows, h, mxSample);
    }

    /** Consider the new row for the sample array and for the candidates. */
    method ConsiderRow(iChng: nat, ghost before: seq<Row>, ghost row: Row)
      requires Configured() && IsIndex(nCol, rows) && 0 < |rows| <= total && |aBest| == nCol
      requires rows == before + [row] && IsIndex(nCol, before) && Continues(iChng, before, row)
      requires current.iHash == h(|before|) && Selected(nCol, rows, h, mxSample, a, nCol - 1)
      requires CurrentOk(nCol, rows, current) && ArrivedAt(nCol, rows, nPSample, mxSample, a, iMin)
      requires forall q | 0 <= q < nCol - 1 :: CandidateFrom(iChng, before, row, aBest[q], q)
      modifies this`a, this`iMin, this`current, this`aBest
      ensures |aBest| == nCol && Running()
    {
      TakePeriodic();
      UpdateBest(iChng, before, row);
    }

    /** What the caller says about the next row: its key is larger, and iChng is the left-most
        column in which it differs from the row before. */
    ghost predicate NextRow(iChng: nat, key: seq<int>)
      requires nCol > 0
      reads this`rows
    {
      && |key| == nCol && IsIndex(nCol, rows)
      && (rows == [] ==> iChng == 0)
      && (rows != [] ==> LexLess(rows[|rows| - 1].key, key) && iChng == Diff(rows[|rows| - 1].key, key))
    }

    lemma CandidatesOk(iChng: nat, row: Row)
      requires Scanning() && NextRow(iChng, row.key)
      ensures IsIndex(nCol, rows + [row]) && Continues(iChng, rows, row)
      ensures forall q | 0 <= q < nCol - 1 :: CandidateFrom(iChng, rows, row, aBest[q], q)
    {
      AppendIsIndex(nCol, rows, row);
    }

    /** The new row becomes the current one. */
    method Arrive(iChng: nat, rowid: Rowid, ghost row: Row)
      requires Scanning() && |rows| < total && NextRow(iChng, row.key) && row.rowid == rowid
      requires IsIndex(nCol, rows + [row])
      modifies this
      ensures rows == old(rows) + [row] && nRow == |rows| && iGet == -1 && Drawing()
      ensures current.iHash == h(|rows| - 1) && Selected(nCol, rows, h, mxSample, a, nCol - 1)
      ensures |aBest| == nCol && forall q | 0 <= q < iChng :: aBest[q] == old(aBest)[q]
      ensures CurrentOk(nCol, rows, current) && ArrivedAt(nCol, rows, nPSample, mxSample, a, iMin)
    {
      if nRow == 0 {
        assert rows + [row] == [row];
        ArriveFirst(rowid, row);
      } else {
        ArriveNext(iChng, rowid, row);
      }
    }

    lemma StillCandidates(iChng: nat, before: seq<Row>, row: Row, best: seq<Sample>, best': seq<Sample>)
      requires |best| == |best'| == nCol && forall q | 0 <= q < iChng && q < nCol :: best'[q] == best[q]
      requires forall q | 0 <= q < nCol - 1 :: CandidateFrom(iChng, before, row, best[q], q)
      ensures forall q | 0 <= q < nCol - 1 :: CandidateFrom(iChng, before, row, best'[q], q)
    {
      forall q | 0 <= q < nCol - 1
        ensures CandidateFrom(iChng, before, row, best'[q], q)
      {
        assert CandidateFrom(iChng, before, row, best[q], q);
      }
    }

    /** Everything that a push does with a row. */
    method PushRow(iChng: nat, rowid: Rowid, ghost row: Row)
      requires Scanning() && |rows| < total && NextRow(iChng, row.key) && row.rowid == rowid
      modifies this
      ensures Scanning() && rows == old(rows) + [row]
    {
      ghost var before, best := rows, aBest;
      CandidatesOk(iChng, row);
      Arrive(iChng, rowid, row);
      StillCandidates(iChng, before, row, best, aBest);
      ConsiderRow(iChng, before, row);
    }

    /** One row of the index, with the left-most column in which it differs from the row before.
        Afterwards the candidate of each column is the chosen row of the group that the row is in,
        and the entries are the preferred ones. */
    method StatPush(iChng: nat, rowid: Rowid, ghost key: seq<int>)
      requires Scanning() && |rows| < total && NextRow(iChng, key)
      modifies this
      ensures Scanning() && rows == old(rows) + [Row(key, rowid)]
      ensures forall i | 0 <= i < nCol - 1 :: BestChosen(nCol, rows, h, aBest[i], i)
      ensures Selected(nCol, rows, h, mxSample, a, nCol - 1)
    {
      PushRow(iChng, rowid, Row(key, rowid));
    }

    /** After the final flush: every count of every sample is the whole-index count. */
    ghost predicate Flushed()
      reads this`nRow, this`current, this`iMin, this`a, this`rows
    {
      && Configured()
      && IsIndex(nCol, rows) && 0 < nRow == |rows| <= total
      && CurrentOk(nCol, rows, current)
      && Collected(nCol, rows, nPSample, mxSample, a, iMin, -1)
      && AllExact(nCol, rows, a)
      && Selected(nCol, rows, h, mxSample, a, 0)
    }

    ghost predicate Reporting()
      reads this
    {
      iGet >= 0 && Flushed()
    }

    /** The end of the scan closes every group. */
    method FinalFlush()
      requires Scanning() && |rows| > 0
      modifies this
      ensures Reporting() && rows == old(rows) && iGet == 0
    {
      SamplePushPrevious(0);
      forall k | 0 <= k < |a|
        ensures Exact(nCol, rows, a[k])
      {
        assert SampleOk(nCol, rows, nPSample, a[k], -1) && ValidFrom(nCol, rows, a[k], 0);
      }
      iGet := 0;
    }

    /** The first request for a rowid ends the scan. */
    method StatGetRowid() returns (found: bool, rowid: Rowid)
      requires Reporting() || (Scanning() && |rows| > 0)
      modifies this
      ensures Reporting() && rows == old(rows)
      ensures if old(iGet) >= 0 then unchanged(this) else iGet == 0
      ensures found <==> iGet < |a|
      ensures found ==> Exact(nCol, rows, a[iGet]) && rowid == rows[RowOf(a[iGet])].rowid
    {
      if iGet < 0 { FinalFlush(); }
      found, rowid := CurrentRowid();
    }

    /** Every call after the first one finds nothing to flush. */
    method CurrentRowid() returns (found: bool, rowid: Rowid)
      requires iGet >= 0 && IsIndex(nCol, rows) && AllExact(nCol, rows, a)
      ensures found <==> iGet < |a|
      ensures found ==> Exact(nCol, rows, a[iGet]) && rowid == rows[RowOf(a[iGet])].rowid
    {
      found, rowid := iGet < |a|, IntRowid(0);
      if found {
        assert Exact(nCol, rows, a[iGet]);
        rowid := a[iGet].rowid;
      }
    }

    /** One of the three count lists of the current sample, which describes row r; the last one
        moves on to the next sample. */
    method StatGetCounts(kind: CountKind, ghost r: nat) returns (text: string)
      requires 0 <= iGet < |a| && IsIndex(nCol, rows) && Exact(nCol, rows, a[iGet]) && r == RowOf(a[iGet])
      modifies this`iGet
      ensures iGet == old(iGet) + if kind.GetNDLt? then 1 else 0
      ensures text == Printed(CountList(nCol, rows, kind, r))
    {
      var s := a[iGet];
      var aCnt;
      match kind {
        case GetNEq => aCnt := s.anEq;
        case GetNLt => aCnt := s.anLt;
        case GetNDLt =>
          aCnt := s.anDLt;
          iGet := iGet + 1;
      }
      assert aCnt == CountList(nCol, rows, kind, r);
      text := PrintCounts(aCnt);
    }

    /** The average number of rows per distinct prefix through column i, rounded up. */
    method Estimate(i: nat) returns (iVal: nat)
      requires IsIndex(nCol, rows) && 0 < |rows| == nRow && CurrentOk(nCol, rows, current) && i < nCol
      ensures NDistinct(nCol, rows, i) > 0 && iVal == RoundedUp(|rows|, NDistinct(nCol, rows, i))
    {
      var nDistinct := current.anDLt[i] + 1;
      iVal := (nRow + nDistinct - 1) / nDistinct;
      DistinctUpToLast(nCol, rows, i);
      NEqPositive(nCol, rows, |rows| - 1, i);
      assert current.anEq[i] > 0;
    }

    /** The number of rows, then one estimate for each key column. */
    method PrintStat1() returns (text: string)
      requires 0 < nKeyCol <= nCol && IsIndex(nCol, rows) && 0 < |rows| == nRow && CurrentOk(nCol, rows, current)
      ensures text == Printed([|rows|] + EstimateList(nCol, rows, nKeyCol))
    {
      text := Decimal(nRow);
      var i := 0;
      while i < nKeyCol
        invariant 0 <= i <= nKeyCol
        invariant text == Printed([|rows|] + EstimateList(nCol, rows, i))
      {
        var iVal := Estimate(i);
        ghost var printed := [|rows|] + EstimateList(nCol, rows, i);
        PrintedAppend(printed, iVal);
        text := text + " " + Decimal(iVal);
        i := i + 1;
        assert printed + [iVal] == [|rows|] + EstimateList(nCol, rows, i);
      }
    }

    /** The stat1 entry, before or after the final flush. */
    method StatGetStat1() returns (text: string)
      requires (Scanning() && |rows| > 0) || Reporting()
      ensures text == Printed([|rows|] + EstimateList(nCol, rows, nKeyCol))
    {
      text := PrintStat1();
    }
  }
}
