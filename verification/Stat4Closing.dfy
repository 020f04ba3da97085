/** Closing one column's group: the four things that can happen to the candidate
    that is offered for it, and what each of them keeps. */
module Stat4Closing {
  import opened IndexRows
  import opened Samples
  import opened Stat4Invariant
  import opened Stat4Collection

  /** The columns from q on have been closed. */
  ghost predicate ClosedFrom(
      nCol: nat, rows: seq<Row>, period: nat, mx: nat, a: seq<Sample>, iMin: nat, q: nat)
    requires IsIndex(nCol, rows) && |rows| > 0 && period > 0 && q < nCol
  {
    Collected(nCol, rows, period, mx, a, iMin, q - 1) && OpenGroupServed(nCol, rows, a, q)
  }

  lemma NothingClosedYet(nCol: nat, rows: seq<Row>, period: nat, mx: nat, a: seq<Sample>, iMin: nat)
    requires IsIndex(nCol, rows) && |rows| > 0 && period > 0
    requires Collected(nCol, rows, period, mx, a, iMin, nCol - 2)
    ensures ClosedFrom(nCol, rows, period, mx, a, iMin, nCol - 1)
  {
  }

  lemma OneMoreClosed(nCol: nat, rows: seq<Row>, period: nat, mx: nat, a: seq<Sample>, iMin: nat, i: nat)
    requires IsIndex(nCol, rows) && |rows| > 0 && period > 0 && i < nCol - 1
    requires AfterClosing(nCol, rows, period, mx, a, i)
    requires AllRanked(nCol, a) && (|a| == mx ==> IsMinimum(nCol, a, iMin))
    ensures ClosedFrom(nCol, rows, period, mx, a, iMin, i)
  {
  }

  /** Before column i is closed: everything to its right has been closed. */
  ghost predicate BeforeClosing(
      nCol: nat, rows: seq<Row>, period: nat, mx: nat, a: seq<Sample>, iMin: nat, best: Sample, i: nat)
    requires IsIndex(nCol, rows) && |rows| > 0 && period > 0
  {
    && i < nCol - 1
    && ClosedFrom(nCol, rows, period, mx, a, iMin, i + 1)
    && BestOk(nCol, rows, best, i)
  }

  /** After column i is closed (the minimum is stated apart). */
  ghost predicate AfterClosing(nCol: nat, rows: seq<Row>, period: nat, mx: nat, a: seq<Sample>, i: nat)
    requires IsIndex(nCol, rows) && |rows| > 0 && period > 0 && i < nCol
  {
    && AllOk(nCol, rows, period, a, i - 1)
    && |a| <= mx
    && Ordered(nCol, a)
    && PeriodicKept(nCol, period, a, |rows|)
    && AllServed(nCol, rows, mx, a, i - 1)
    && OpenGroupServed(nCol, rows, a, i)
    && StandApart(nCol, rows, a)
  }

  /** The candidate for column i as it is offered. */
  ghost function Candidate(nCol: nat, rows: seq<Row>, best: Sample, i: nat): (s: Sample)
    requires IsIndex(nCol, rows) && |rows| > 0 && BestOk(nCol, rows, best, i)
    ensures Ranked(nCol, s) && s.iCol == i && !s.isPSample && RowOf(s) == RowOf(best)
    ensures Score(nCol, s) == NEq(nCol, rows, |rows| - 1, i)
  {
    Offered(nCol, best, NEq(nCol, rows, |rows| - 1, i))
  }

  lemma OfferedIsCandidate(nCol: nat, rows: seq<Row>, cur: Sample, best: Sample, i: nat)
    requires IsIndex(nCol, rows) && |rows| > 0 && CurrentOk(nCol, rows, cur) && BestOk(nCol, rows, best, i)
    ensures best.(anEq := best.anEq[i := cur.anEq[i]]) == Candidate(nCol, rows, best, i)
  {
  }

  lemma ServedLower(nCol: nat, rows: seq<Row>, mx: nat, a: seq<Sample>, i: nat)
    requires IsIndex(nCol, rows) && |rows| > 0 && i < nCol - 1 && Placed(nCol, rows, a)
    requires AllServed(nCol, rows, mx, a, i)
    requires Served(nCol, rows, mx, a, |rows| - 1, i)
    ensures AllServed(nCol, rows, mx, a, i - 1)
  {
  }

  lemma OkLower(nCol: nat, rows: seq<Row>, period: nat, a: seq<Sample>, i: nat)
    requires IsIndex(nCol, rows) && period > 0 && AllOk(nCol, rows, period, a, i)
    ensures AllOk(nCol, rows, period, a, i - 1)
  {
    var lo := i - 1;
    forall k | 0 <= k < |a|
      ensures SampleOk(nCol, rows, period, a[k], lo)
    {
      SampleOkLower(nCol, rows, period, a[k], i, lo);
    }
  }

  /** What has to be shown when a column has been closed. */
  lemma Conclude(nCol: nat, rows: seq<Row>, period: nat, mx: nat, a: seq<Sample>, i: nat)
    requires IsIndex(nCol, rows) && |rows| > 0 && period > 0 && i < nCol - 1 && |a| <= mx
    requires AllOk(nCol, rows, period, a, i - 1) && Ordered(nCol, a) && PeriodicKept(nCol, period, a, |rows|)
    requires AllServed(nCol, rows, mx, a, i) && Represented(nCol, rows, a, |rows| - 1, i)
    requires StandApart(nCol, rows, a)
    ensures AfterClosing(nCol, rows, period, mx, a, i)
  {
  }

  /** The asserted facts about an entry that shares the candidate's prefix. */
  lemma CandidateBeatsOpen(nCol: nat, rows: seq<Row>, period: nat, s: Sample, best: Sample, i: nat)
    requires IsIndex(nCol, rows) && |rows| > 0 && period > 0
    requires BestOk(nCol, rows, best, i)
    requires SampleOk(nCol, rows, period, s, i) && !s.isPSample && s.anEq[i] == 0
    ensures s.iCol > i
    ensures Better(nCol, Candidate(nCol, rows, best, i), s)
  {
    OpenSampleIsDeeper(nCol, rows, period, s, i);
    ZeroMeansOpen(nCol, rows, period, s, i);
    NEqOfGroup(nCol, rows, RowOf(best), |rows| - 1, i);
    ShallowerIsBetter(nCol, rows, Candidate(nCol, rows, best, i), s, i);
  }

  lemma CandidateBeatsAllOpen(nCol: nat, rows: seq<Row>, period: nat, a: seq<Sample>, best: Sample, i: nat)
    requires IsIndex(nCol, rows) && |rows| > 0 && period > 0
    requires BestOk(nCol, rows, best, i) && AllOk(nCol, rows, period, a, i)
    ensures forall k | 0 <= k < |a| && !a[k].isPSample && a[k].anEq[i] == 0 ::
              a[k].iCol > i && Better(nCol, Candidate(nCol, rows, best, i), a[k])
  {
    forall k | 0 <= k < |a| && !a[k].isPSample && a[k].anEq[i] == 0
      ensures a[k].iCol > i && Better(nCol, Candidate(nCol, rows, best, i), a[k])
    {
      CandidateBeatsOpen(nCol, rows, period, a[k], best, i);
    }
  }

  // ---- not offered: the array is full and the candidate does not beat its minimum ----

  lemma RejectedMeansNoneOpen(
      nCol: nat, rows: seq<Row>, period: nat, mx: nat, a: seq<Sample>, iMin: nat, best: Sample, i: nat, k: nat)
    requires IsIndex(nCol, rows) && |rows| > 0 && period > 0
    requires BeforeClosing(nCol, rows, period, mx, a, iMin, best, i)
    requires |a| == mx && !Better(nCol, Candidate(nCol, rows, best, i), a[iMin])
    requires k < |a| && Open(nCol, rows, RowOf(a[k]), i)
    ensures a[k].isPSample
  {
    assert SampleOk(nCol, rows, period, a[k], i);
    ZeroMeansOpen(nCol, rows, period, a[k], i);
    if !a[k].isPSample {
      CandidateBeatsOpen(nCol, rows, period, a[k], best, i);
      BetterIsStrictWeakOrder(nCol, Candidate(nCol, rows, best, i), a[iMin], a[k]);
      assert false;
    }
  }

  lemma RejectKeeps(nCol: nat, rows: seq<Row>, period: nat, mx: nat, a: seq<Sample>, iMin: nat, best: Sample, i: nat)
    requires IsIndex(nCol, rows) && |rows| > 0 && period > 0
    requires BeforeClosing(nCol, rows, period, mx, a, iMin, best, i)
    requires |a| == mx && !Better(nCol, Candidate(nCol, rows, best, i), a[iMin])
    ensures AfterClosing(nCol, rows, period, mx, a, i)
  {
    OkLower(nCol, rows, period, a, i);
    assert ScoresAtLeast(nCol, a, NEq(nCol, rows, |rows| - 1, i));
    ServedLower(nCol, rows, mx, a, i);
    forall k | 0 <= k < |a| && Open(nCol, rows, RowOf(a[k]), i)
      ensures Represented(nCol, rows, a, |rows| - 1, i)
    {
      RejectedMeansNoneOpen(nCol, rows, period, mx, a, iMin, best, i, k);
      assert Represents(nCol, rows, a[k], |rows| - 1, i);
    }
  }

  lemma RejectCloses(nCol: nat, rows: seq<Row>, period: nat, mx: nat, a: seq<Sample>, iMin: nat, best: Sample, i: nat)
    requires IsIndex(nCol, rows) && |rows| > 0 && period > 0
    requires BeforeClosing(nCol, rows, period, mx, a, iMin, best, i)
    requires |a| == mx && !Better(nCol, Candidate(nCol, rows, best, i), a[iMin])
    ensures ClosedFrom(nCol, rows, period, mx, a, iMin, i)
  {
    RejectKeeps(nCol, rows, period, mx, a, iMin, best, i);
    OneMoreClosed(nCol, rows, period, mx, a, iMin, i);
  }

  // ---- offered, but a periodic sample of the group is already there ----

  lemma PeriodicPresentKeeps(
      nCol: nat, rows: seq<Row>, period: nat, mx: nat, a: seq<Sample>, iMin: nat, best: Sample, i: nat, p: nat)
    requires IsIndex(nCol, rows) && |rows| > 0 && period > 0
    requires BeforeClosing(nCol, rows, period, mx, a, iMin, best, i)
    requires p < |a| && a[p].isPSample && a[p].anEq[i] == 0
    ensures AfterClosing(nCol, rows, period, mx, a, i)
  {
    PeriodicRepresents(nCol, rows, period, a, i, p);
    OkLower(nCol, rows, period, a, i);
    Conclude(nCol, rows, period, mx, a, i);
  }

  lemma PeriodicRepresents(nCol: nat, rows: seq<Row>, period: nat, a: seq<Sample>, i: nat, p: nat)
    requires IsIndex(nCol, rows) && |rows| > 0 && period > 0 && i < nCol
    requires AllOk(nCol, rows, period, a, i) && p < |a| && a[p].isPSample && a[p].anEq[i] == 0
    ensures Represented(nCol, rows, a, |rows| - 1, i)
  {
    assert SampleOk(nCol, rows, period, a[p], i);
    ZeroMeansOpen(nCol, rows, period, a[p], i);
    assert Represents(nCol, rows, a[p], |rows| - 1, i);
  }

  // ---- offered, and an entry of the group is upgraded ----

  /** Entry t is the preferred one among the entries that share the candidate's prefix. */
  ghost predicate IsUpgrade(nCol: nat, a: seq<Sample>, i: nat, t: nat)
    requires AllRanked(nCol, a) && i < nCol
  {
    && t < |a| && a[t].anEq[i] == 0
    && (forall k | 0 <= k < |a| && a[k].anEq[i] == 0 :: !a[k].isPSample && !Better(nCol, a[k], a[t]))
  }

  /** If the preferred entry is even in the open group of column i + 1, it stands for that group. */
  lemma UpgradeIsNotDeeper(nCol: nat, rows: seq<Row>, period: nat, a: seq<Sample>, i: nat, t: nat, l: nat)
    requires IsIndex(nCol, rows) && |rows| > 0 && period > 0 && i + 1 < nCol
    requires AllOk(nCol, rows, period, a, i)
    requires IsUpgrade(nCol, a, i, t) && Open(nCol, rows, RowOf(a[t]), i + 1)
    requires l < |a| && Represents(nCol, rows, a[l], |rows| - 1, i + 1)
    ensures a[t].iCol <= i + 1
  {
    assert SampleOk(nCol, rows, period, a[t], i) && SampleOk(nCol, rows, period, a[l], i);
    OpenShorter(nCol, rows, RowOf(a[l]), i, i + 1);
    ZeroMeansOpen(nCol, rows, period, a[l], i);
    if a[t].iCol > i + 1 {
      ShallowerIsBetter(nCol, rows, a[l], a[t], i + 1);
      assert false;
    }
  }

  lemma ValidBeyondClosed(nCol: nat, rows: seq<Row>, period: nat, s: Sample, lo: int, q: nat)
    requires IsIndex(nCol, rows) && |rows| > 0 && period > 0 && q < nCol
    requires SampleOk(nCol, rows, period, s, lo) && !Open(nCol, rows, RowOf(s), q)
    ensures ValidFrom(nCol, rows, s, q)
  {
    forall j | q <= j < nCol
      ensures s.anEq[j] == NEq(nCol, rows, RowOf(s), j)
    {
      assert CountOk(nCol, rows, s, lo, j);
      if Open(nCol, rows, RowOf(s), j) {
        OpenShorter(nCol, rows, RowOf(s), q, j);
        assert false;
      }
    }
  }

  /** The entry to upgrade has final counts in every column to the right of i. */
  lemma UpgradeIsValid(nCol: nat, rows: seq<Row>, period: nat, a: seq<Sample>, i: nat, t: nat)
    requires IsIndex(nCol, rows) && |rows| > 0 && period > 0 && i + 1 < nCol
    requires AllOk(nCol, rows, period, a, i) && OpenGroupServed(nCol, rows, a, i + 1)
    requires IsUpgrade(nCol, a, i, t)
    ensures Open(nCol, rows, RowOf(a[t]), i)
    ensures ValidFrom(nCol, rows, a[t], i + 1)
  {
    assert SampleOk(nCol, rows, period, a[t], i);
    ZeroMeansOpen(nCol, rows, period, a[t], i);
    if Open(nCol, rows, RowOf(a[t]), i + 1) {
      var l: nat :| l < |a| && Represents(nCol, rows, a[l], |rows| - 1, i + 1);
      UpgradeIsNotDeeper(nCol, rows, period, a, i, t, l);
    } else {
      ValidBeyondClosed(nCol, rows, period, a[t], i, i + 1);
    }
  }

  /** The array with entry t upgraded to stand for the group of column i that just closed. */
  ghost predicate IsUpgraded(nCol: nat, rows: seq<Row>, a: seq<Sample>, i: nat, t: nat, a': seq<Sample>)
    requires IsIndex(nCol, rows) && |rows| > 0 && i < nCol
  {
    && AllRanked(nCol, a) && t < |a|
    && a' == a[t := Upgraded(nCol, a[t], i, NEq(nCol, rows, |rows| - 1, i))]
  }

  lemma UpgradeKeepsOk(nCol: nat, rows: seq<Row>, period: nat, a: seq<Sample>, i: nat, t: nat, a': seq<Sample>)
    requires IsIndex(nCol, rows) && |rows| > 0 && period > 0 && i + 1 < nCol
    requires AllOk(nCol, rows, period, a, i) && OpenGroupServed(nCol, rows, a, i + 1)
    requires IsUpgrade(nCol, a, i, t) && IsUpgraded(nCol, rows, a, i, t, a')
    ensures AllOk(nCol, rows, period, a', i - 1)
  {
    UpgradeIsValid(nCol, rows, period, a, i, t);
    assert SampleOk(nCol, rows, period, a[t], i);
    UpgradedOk(nCol, rows, period, a[t], i);
    OkLower(nCol, rows, period, a, i);
  }

  lemma UpgradeKeepsRepresented(
      nCol: nat, rows: seq<Row>, a: seq<Sample>, i: nat, t: nat, a': seq<Sample>, r: nat, j: nat)
    requires IsIndex(nCol, rows) && |rows| > 0 && i < nCol && Placed(nCol, rows, a) && Placed(nCol, rows, a')
    requires IsUpgraded(nCol, rows, a, i, t, a') && i < a[t].iCol
    requires r < |rows| && j < nCol && Represented(nCol, rows, a, r, j)
    ensures Represented(nCol, rows, a', r, j)
  {
    var k: nat :| k < |a| && Represents(nCol, rows, a[k], r, j);
    assert Represents(nCol, rows, a'[k], r, j);
  }

  lemma UpgradeKeepsScores(nCol: nat, rows: seq<Row>, a: seq<Sample>, i: nat, t: nat, a': seq<Sample>, n: nat)
    requires IsIndex(nCol, rows) && |rows| > 0 && i < nCol && AllRanked(nCol, a')
    requires IsUpgraded(nCol, rows, a, i, t, a') && !a[t].isPSample
    requires Score(nCol, a[t]) <= NEq(nCol, rows, |rows| - 1, i)
    requires ScoresAtLeast(nCol, a, n)
    ensures ScoresAtLeast(nCol, a', n)
  {
  }

  lemma UpgradeKeepsServed(nCol: nat, rows: seq<Row>, mx: nat, a: seq<Sample>, i: nat, t: nat, a': seq<Sample>)
    requires IsIndex(nCol, rows) && |rows| > 0 && i < nCol && Placed(nCol, rows, a) && Placed(nCol, rows, a')
    requires IsUpgraded(nCol, rows, a, i, t, a')
    requires !a[t].isPSample && i < a[t].iCol && Score(nCol, a[t]) <= NEq(nCol, rows, |rows| - 1, i)
    requires AllServed(nCol, rows, mx, a, i)
    ensures AllServed(nCol, rows, mx, a', i)
  {
    forall r: nat, j: nat | r < |rows| && j < nCol && Closed(nCol, rows, i, r, j)
      ensures Served(nCol, rows, mx, a', r, j)
    {
      assert Served(nCol, rows, mx, a, r, j);
      if Represented(nCol, rows, a, r, j) {
        UpgradeKeepsRepresented(nCol, rows, a, i, t, a', r, j);
      } else {
        UpgradeKeepsScores(nCol, rows, a, i, t, a', NEq(nCol, rows, r, j));
      }
    }
  }

  lemma UpgradeKeepsRows(
      nCol: nat, rows: seq<Row>, period: nat, a: seq<Sample>, i: nat, t: nat, a': seq<Sample>, n: nat)
    requires IsIndex(nCol, rows) && |rows| > 0 && i < nCol && Placed(nCol, rows, a) && period > 0
    requires IsUpgraded(nCol, rows, a, i, t, a') && Ordered(nCol, a) && PeriodicKept(nCol, period, a, n)
    ensures Placed(nCol, rows, a') && Ordered(nCol, a') && PeriodicKept(nCol, period, a', n)
  {
    assert forall k | 0 <= k < |a| :: Ranked(nCol, a'[k]) && RowOf(a'[k]) == RowOf(a[k]);
    forall r: nat | r < n && IsPeriodic(period, r)
      ensures HasRow(nCol, a', r)
    {
      assert HasRow(nCol, a, r);
      var k: nat :| k < |a| && RowOf(a[k]) == r;
      assert RowOf(a'[k]) == r;
    }
  }

  lemma UpgradedRepresents(nCol: nat, rows: seq<Row>, a: seq<Sample>, i: nat, t: nat, a': seq<Sample>)
    requires IsIndex(nCol, rows) && |rows| > 0 && i < nCol && Placed(nCol, rows, a) && Placed(nCol, rows, a')
    requires IsUpgraded(nCol, rows, a, i, t, a') && Open(nCol, rows, RowOf(a[t]), i)
    ensures Represented(nCol, rows, a', |rows| - 1, i)
  {
    assert Represents(nCol, rows, a'[t], |rows| - 1, i);
  }

  /** The upgraded entry stands for a group of its own: entries that stand for wider groups are
      not in the open group, and one inside it that stands for a group around entry t would have
      been preferred to it. */
  lemma UpgradedStandsApart(nCol: nat, rows: seq<Row>, period: nat, x: Sample, t: Sample, i: nat, u: Sample)
    requires IsIndex(nCol, rows) && |rows| > 0 && period > 0 && i + 1 < nCol
    requires SampleOk(nCol, rows, period, x, i) && !x.isPSample
    requires SampleOk(nCol, rows, period, t, i) && !t.isPSample && Open(nCol, rows, RowOf(t), i) && i < t.iCol
    requires x.anEq[i] == 0 ==> !Better(nCol, x, t)
    requires Apart(nCol, rows, x, t) && Apart(nCol, rows, t, x)
    requires Ranked(nCol, u) && RowOf(u) == RowOf(t) && u.iCol == i
    ensures Apart(nCol, rows, x, u) && Apart(nCol, rows, u, x)
  {
    ZeroMeansOpen(nCol, rows, period, x, i);
    if x.iCol <= i {
      if x.anEq[i] == 0 {
        OpenSampleIsDeeper(nCol, rows, period, x, i);
        assert false;
      }
      ApartAtEqual(nCol, rows, RowOf(x), RowOf(u), i);
    } else if x.iCol < t.iCol && SameGroup(nCol, rows, RowOf(t), RowOf(x), x.iCol) {
      SameGroupShorter(nCol, rows, RowOf(t), RowOf(x), i, x.iCol);
      ShallowerIsBetter(nCol, rows, x, t, x.iCol);
      assert false;
    }
  }

  /** A row outside the open group is in no group with a row inside it. */
  lemma ApartAtEqual(nCol: nat, rows: seq<Row>, r: nat, q: nat, i: nat)
    requires IsIndex(nCol, rows) && |rows| > 0 && i < nCol - 1 && r < |rows| && q < |rows|
    requires !Open(nCol, rows, r, i) && SameGroup(nCol, rows, q, |rows| - 1, i)
    ensures !SameGroup(nCol, rows, r, q, i) && !SameGroup(nCol, rows, q, r, i)
  {
  }

  lemma ReplaceKeepsApart(nCol: nat, rows: seq<Row>, a: seq<Sample>, t: nat, u: Sample, a': seq<Sample>)
    requires IsIndex(nCol, rows) && Placed(nCol, rows, a) && t < |a| && a' == a[t := u] && Placed(nCol, rows, a')
    requires Ranked(nCol, u) && RowOf(u) < |rows| && StandApart(nCol, rows, a)
    requires forall k | 0 <= k < |a| && k != t && !a[k].isPSample ::
               Apart(nCol, rows, a[k], u) && Apart(nCol, rows, u, a[k])
    ensures StandApart(nCol, rows, a')
  {
    forall k, l | 0 <= k < |a'| && 0 <= l < |a'| && k != l && !a'[k].isPSample && !a'[l].isPSample
      ensures Apart(nCol, rows, a'[k], a'[l])
    {
      if k != t && l != t {
        assert Apart(nCol, rows, a[k], a[l]);
      }
    }
  }

  lemma UpgradedStandsApartFromAll(nCol: nat, rows: seq<Row>, period: nat, a: seq<Sample>, i: nat, t: nat, u: Sample)
    requires IsIndex(nCol, rows) && |rows| > 0 && period > 0 && i + 1 < nCol
    requires AllOk(nCol, rows, period, a, i) && StandApart(nCol, rows, a)
    requires IsUpgrade(nCol, a, i, t) && Open(nCol, rows, RowOf(a[t]), i) && i < a[t].iCol
    requires Ranked(nCol, u) && RowOf(u) == RowOf(a[t]) && u.iCol == i
    ensures forall k | 0 <= k < |a| && k != t && !a[k].isPSample ::
              Apart(nCol, rows, a[k], u) && Apart(nCol, rows, u, a[k])
  {
    assert SampleOk(nCol, rows, period, a[t], i) && !a[t].isPSample;
    forall k | 0 <= k < |a| && k != t && !a[k].isPSample
      ensures Apart(nCol, rows, a[k], u) && Apart(nCol, rows, u, a[k])
    {
      assert SampleOk(nCol, rows, period, a[k], i);
      assert Apart(nCol, rows, a[k], a[t]) && Apart(nCol, rows, a[t], a[k]);
      UpgradedStandsApart(nCol, rows, period, a[k], a[t], i, u);
    }
  }

  lemma UpgradeKeepsApart(nCol: nat, rows: seq<Row>, period: nat, a: seq<Sample>, i: nat, t: nat, a': seq<Sample>)
    requires IsIndex(nCol, rows) && |rows| > 0 && period > 0 && i + 1 < nCol
    requires Placed(nCol, rows, a) && Placed(nCol, rows, a')
    requires AllOk(nCol, rows, period, a, i) && IsUpgrade(nCol, a, i, t) && Open(nCol, rows, RowOf(a[t]), i)
    requires IsUpgraded(nCol, rows, a, i, t, a') && i < a[t].iCol && StandApart(nCol, rows, a)
    ensures StandApart(nCol, rows, a')
  {
    UpgradedStandsApartFromAll(nCol, rows, period, a, i, t, a'[t]);
    ReplaceKeepsApart(nCol, rows, a, t, a'[t], a');
  }

  lemma AllOkPlaced(nCol: nat, rows: seq<Row>, period: nat, a: seq<Sample>, lo: int)
    requires IsIndex(nCol, rows) && period > 0 && AllOk(nCol, rows, period, a, lo)
    ensures Placed(nCol, rows, a) && AllRanked(nCol, a)
  {
  }

  lemma UpgradeKeeps(
      nCol: nat, rows: seq<Row>, period: nat, mx: nat, a: seq<Sample>, iMin: nat, best: Sample, i: nat, t: nat,
      a': seq<Sample>)
    requires IsIndex(nCol, rows) && |rows| > 0 && period > 0
    requires BeforeClosing(nCol, rows, period, mx, a, iMin, best, i)
    requires IsUpgrade(nCol, a, i, t) && IsUpgraded(nCol, rows, a, i, t, a')
    ensures AfterClosing(nCol, rows, period, mx, a', i)
  {
    assert SampleOk(nCol, rows, period, a[t], i);
    CandidateBeatsOpen(nCol, rows, period, a[t], best, i);
    UpgradeKeepsAll(nCol, rows, period, mx, a, i, t, a');
  }

  lemma UpgradeKeepsAll(
      nCol: nat, rows: seq<Row>, period: nat, mx: nat, a: seq<Sample>, i: nat, t: nat, a': seq<Sample>)
    requires IsIndex(nCol, rows) && |rows| > 0 && period > 0 && i + 1 < nCol && |a| <= mx
    requires AllOk(nCol, rows, period, a, i) && OpenGroupServed(nCol, rows, a, i + 1)
    requires Ordered(nCol, a) && PeriodicKept(nCol, period, a, |rows|) && AllServed(nCol, rows, mx, a, i)
    requires StandApart(nCol, rows, a)
    requires IsUpgrade(nCol, a, i, t) && IsUpgraded(nCol, rows, a, i, t, a')
    requires i < a[t].iCol && Score(nCol, a[t]) <= NEq(nCol, rows, |rows| - 1, i)
    ensures AfterClosing(nCol, rows, period, mx, a', i)
  {
    AllOkPlaced(nCol, rows, period, a, i);
    UpgradeKeepsRows(nCol, rows, period, a, i, t, a', |rows|);
    UpgradeKeepsServed(nCol, rows, mx, a, i, t, a');
    UpgradeIsValid(nCol, rows, period, a, i, t);
    UpgradedRepresents(nCol, rows, a, i, t, a');
    UpgradeKeepsApart(nCol, rows, period, a, i, t, a');
    UpgradeKeepsOk(nCol, rows, period, a, i, t, a');
    Conclude(nCol, rows, period, mx, a', i);
  }

  // ---- offered and inserted ----

  /** No entry shares the candidate's prefix through column i. */
  ghost predicate NoneOpen(nCol: nat, a: seq<Sample>, i: nat)
    requires AllRanked(nCol, a) && i < nCol
  {
    forall k | 0 <= k < |a| :: a[k].anEq[i] != 0
  }

  /** Entries outside the candidate's group precede the whole group. */
  lemma CandidateComesLast(nCol: nat, rows: seq<Row>, period: nat, x: Sample, best: Sample, i: nat)
    requires IsIndex(nCol, rows) && |rows| > 0 && period > 0
    requires BestOk(nCol, rows, best, i) && SampleOk(nCol, rows, period, x, i) && x.anEq[i] != 0
    ensures RowOf(x) < RowOf(best)
  {
    ZeroMeansOpen(nCol, rows, period, x, i);
    if RowOf(best) <= RowOf(x) {
      GroupsContiguous(nCol, rows, RowOf(best), RowOf(x), |rows| - 1, i);
      assert false;
    }
  }

  lemma CandidateComesLastOfAll(nCol: nat, rows: seq<Row>, period: nat, a: seq<Sample>, best: Sample, i: nat)
    requires IsIndex(nCol, rows) && |rows| > 0 && period > 0 && i < nCol
    requires BestOk(nCol, rows, best, i) && AllOk(nCol, rows, period, a, i) && NoneOpen(nCol, a, i)
    ensures forall k | 0 <= k < |a| :: RowOf(a[k]) < RowOf(best)
  {
    forall k | 0 <= k < |a|
      ensures RowOf(a[k]) < RowOf(best)
    {
      CandidateComesLast(nCol, rows, period, a[k], best, i);
    }
  }

  /** A periodic row is in the array already, so an inserted candidate is not one. */
  lemma InsertedIsNotPeriodic(nCol: nat, rows: seq<Row>, period: nat, a: seq<Sample>, best: Sample, i: nat)
    requires IsIndex(nCol, rows) && |rows| > 0 && period > 0 && i < nCol
    requires BestOk(nCol, rows, best, i) && AllOk(nCol, rows, period, a, i)
    requires PeriodicKept(nCol, period, a, |rows|) && NoneOpen(nCol, a, i)
    ensures !IsPeriodic(period, RowOf(best))
  {
    if IsPeriodic(period, RowOf(best)) {
      assert HasRow(nCol, a, RowOf(best));
      var k: nat :| k < |a| && RowOf(a[k]) == RowOf(best);
      CandidateComesLast(nCol, rows, period, a[k], best, i);
      assert false;
    }
  }

  lemma WithRoomComesFirst(nCol: nat, mx: nat, a: seq<Sample>, iMin: nat, r: nat)
    requires AllRanked(nCol, a) && (|a| >= mx ==> iMin < |a|)
    requires forall k | 0 <= k < |a| :: RowOf(a[k]) < r
    ensures AllRanked(nCol, WithRoom(a, mx, iMin))
    ensures forall k | 0 <= k < |WithRoom(a, mx, iMin)| :: RowOf(WithRoom(a, mx, iMin)[k]) < r
  {
  }

  lemma InsertKeepsOk(
      nCol: nat, rows: seq<Row>, period: nat, mx: nat, a: seq<Sample>, iMin: nat, b: seq<Sample>, s: Sample, lo: int)
    requires IsIndex(nCol, rows) && period > 0
    requires AllOk(nCol, rows, period, a, lo) && Ordered(nCol, a) && (|a| >= mx ==> iMin < |a|)
    requires SampleOk(nCol, rows, period, s, lo) && b == WithRoom(a, mx, iMin)
    requires forall k | 0 <= k < |a| :: RowOf(a[k]) < RowOf(s)
    ensures AllOk(nCol, rows, period, b + [s], lo) && Ordered(nCol, b + [s])
  {
    var c := b + [s];
    forall k | 0 <= k < |c|
      ensures SampleOk(nCol, rows, period, c[k], lo)
    {
      if k < |b| {
        var k0 := WithRoomAt(a, mx, iMin, k);
        assert SampleOk(nCol, rows, period, a[k0], lo);
      }
    }
    forall k, l | 0 <= k < l < |c|
      ensures RowOf(c[k]) < RowOf(c[l])
    {
      var k0 := WithRoomAt(a, mx, iMin, k);
      if l < |b| {
        var l0 := WithRoomAt(a, mx, iMin, l);
      }
    }
  }

  lemma InsertKeepsPlaced(nCol: nat, rows: seq<Row>, mx: nat, a: seq<Sample>, iMin: nat, s: Sample)
    requires Placed(nCol, rows, a) && (|a| >= mx ==> iMin < |a|)
    requires Ranked(nCol, s) && RowOf(s) < |rows|
    ensures Placed(nCol, rows, WithRoom(a, mx, iMin)) && Placed(nCol, rows, WithRoom(a, mx, iMin) + [s])
  {
  }

  lemma InsertKeepsAllServed(
      nCol: nat, rows: seq<Row>, period: nat, mx: nat, a: seq<Sample>, iMin: nat, b: seq<Sample>, s: Sample,
      lo: int)
    requires IsIndex(nCol, rows) && period > 0 && |a| <= mx
    requires AllOk(nCol, rows, period, a, lo) && (|a| == mx ==> IsMinimum(nCol, a, iMin))
    requires b == WithRoom(a, mx, iMin) && Placed(nCol, rows, b) && Placed(nCol, rows, b + [s])
    requires Ranked(nCol, s)
    requires |a| == mx ==> s.isPSample || Score(nCol, a[iMin]) <= Score(nCol, s)
    requires AllServed(nCol, rows, mx, a, lo)
    ensures AllServed(nCol, rows, mx, b + [s], lo)
  {
    forall r: nat, j: nat | r < |rows| && j < nCol && Closed(nCol, rows, lo, r, j)
      ensures Served(nCol, rows, mx, b + [s], r, j)
    {
      InsertKeepsServed(nCol, rows, period, mx, a, iMin, b, s, lo, r, j);
    }
  }

  lemma InsertKeepsAllPeriodic(
      nCol: nat, rows: seq<Row>, period: nat, mx: nat, a: seq<Sample>, iMin: nat, b: seq<Sample>, s: Sample,
      lo: int, n: nat)
    requires IsIndex(nCol, rows) && period > 0 && |a| <= mx
    requires AllOk(nCol, rows, period, a, lo) && (|a| == mx ==> IsMinimum(nCol, a, iMin))
    requires b == WithRoom(a, mx, iMin) && AllRanked(nCol, b) && AllRanked(nCol, b + [s]) && Ranked(nCol, s)
    requires forall r: nat | r < n && IsPeriodic(period, r) :: RowOf(s) == r || HasRow(nCol, a, r)
    ensures PeriodicKept(nCol, period, b + [s], n)
  {
    forall r: nat | r < n && IsPeriodic(period, r)
      ensures HasRow(nCol, b + [s], r)
    {
      if RowOf(s) != r && |a| == mx {
        assert SampleOk(nCol, rows, period, a[iMin], lo);
        WithoutKeepsRow(nCol, a, iMin, r);
      }
      AppendKeepsRow(nCol, b, s, r);
    }
  }

  /** The inserted candidate is correct. */
  lemma InsertedIsOk(nCol: nat, rows: seq<Row>, period: nat, a: seq<Sample>, best: Sample, i: nat, s: Sample)
    requires IsIndex(nCol, rows) && |rows| > 0 && period > 0 && i < nCol
    requires BestOk(nCol, rows, best, i) && AllOk(nCol, rows, period, a, i)
    requires PeriodicKept(nCol, period, a, |rows|) && NoneOpen(nCol, a, i)
    requires s == Zeroed(Candidate(nCol, rows, best, i), i)
    ensures SampleOk(nCol, rows, period, s, i - 1)
  {
    InsertedIsNotPeriodic(nCol, rows, period, a, best, i);
    InsertedOk(nCol, rows, period, best, i, s);
  }

  /** It stands for the group that is being closed. */
  lemma InsertedRepresents(nCol: nat, rows: seq<Row>, best: Sample, i: nat, s: Sample)
    requires IsIndex(nCol, rows) && |rows| > 0 && i < nCol && BestOk(nCol, rows, best, i)
    requires s == Zeroed(Candidate(nCol, rows, best, i), i)
    ensures Ranked(nCol, s) && RowOf(s) == RowOf(best) && Represents(nCol, rows, s, |rows| - 1, i)
    ensures Score(nCol, s) == NEq(nCol, rows, |rows| - 1, i)
  {
  }

  /** Entries outside the open group and the inserted candidate stand for different groups. */
  lemma InsertedStandsApart(nCol: nat, rows: seq<Row>, period: nat, x: Sample, best: Sample, i: nat, s: Sample)
    requires IsIndex(nCol, rows) && |rows| > 0 && period > 0 && BestOk(nCol, rows, best, i)
    requires SampleOk(nCol, rows, period, x, i) && x.anEq[i] != 0
    requires Ranked(nCol, s) && RowOf(s) == RowOf(best) && s.iCol == i
    ensures Apart(nCol, rows, x, s) && Apart(nCol, rows, s, x)
  {
    ZeroMeansOpen(nCol, rows, period, x, i);
    ApartAtEqual(nCol, rows, RowOf(x), RowOf(s), i);
    if i <= x.iCol {
      ApartDeeper(nCol, rows, RowOf(s), RowOf(x), i, x.iCol);
    }
  }

  lemma InsertKeepsApart(
      nCol: nat, rows: seq<Row>, period: nat, mx: nat, a: seq<Sample>, iMin: nat, b: seq<Sample>,
      best: Sample, i: nat, s: Sample)
    requires IsIndex(nCol, rows) && |rows| > 0 && period > 0 && i < nCol && BestOk(nCol, rows, best, i)
    requires AllOk(nCol, rows, period, a, i) && NoneOpen(nCol, a, i) && (|a| >= mx ==> iMin < |a|)
    requires StandApart(nCol, rows, a)
    requires b == WithRoom(a, mx, iMin) && Placed(nCol, rows, b) && Placed(nCol, rows, b + [s])
    requires Ranked(nCol, s) && RowOf(s) == RowOf(best) && s.iCol == i
    ensures StandApart(nCol, rows, b + [s])
  {
    WithRoomKeepsApart(nCol, rows, mx, a, iMin, b);
    forall k | 0 <= k < |b| && !b[k].isPSample
      ensures Apart(nCol, rows, b[k], s) && Apart(nCol, rows, s, b[k])
    {
      var k0 := WithRoomAt(a, mx, iMin, k);
      InsertedStandsApart(nCol, rows, period, a[k0], best, i, s);
    }
    AppendKeepsApart(nCol, rows, b, s, b + [s]);
  }

  lemma AppendedRepresents(nCol: nat, rows: seq<Row>, b: seq<Sample>, s: Sample, i: nat)
    requires IsIndex(nCol, rows) && |rows| > 0 && i < nCol && Placed(nCol, rows, b + [s])
    requires Shaped(nCol, s) && RowOf(s) < |rows| && Represents(nCol, rows, s, |rows| - 1, i)
    ensures Represented(nCol, rows, b + [s], |rows| - 1, i)
  {
    assert (b + [s])[|b|] == s;
  }

  lemma InsertKeeps(
      nCol: nat, rows: seq<Row>, period: nat, mx: nat, a: seq<Sample>, iMin: nat, best: Sample, i: nat,
      b: seq<Sample>, s: Sample)
    requires IsIndex(nCol, rows) && |rows| > 0 && period > 0 && mx > 0
    requires BeforeClosing(nCol, rows, period, mx, a, iMin, best, i)
    requires NoneOpen(nCol, a, i)
    requires |a| == mx ==> Better(nCol, Candidate(nCol, rows, best, i), a[iMin])
    requires b == WithRoom(a, mx, iMin) && s == Zeroed(Candidate(nCol, rows, best, i), i)
    ensures AfterClosing(nCol, rows, period, mx, b + [s], i)
  {
    InsertedIsOk(nCol, rows, period, a, best, i, s);
    InsertedRepresents(nCol, rows, best, i, s);
    CandidateComesLastOfAll(nCol, rows, period, a, best, i);
    InsertKeepsPlaced(nCol, rows, mx, a, iMin, s);
    InsertKeepsAllServed(nCol, rows, period, mx, a, iMin, b, s, i);
    InsertKeepsAllPeriodic(nCol, rows, period, mx, a, iMin, b, s, i, |rows|);
    AppendedRepresents(nCol, rows, b, s, i);
    OkLower(nCol, rows, period, a, i);
    InsertKeepsOk(nCol, rows, period, mx, a, iMin, b, s, i - 1);
    InsertKeepsApart(nCol, rows, period, mx, a, iMin, b, best, i, s);
    Conclude(nCol, rows, period, mx, b + [s], i);
  }
}
