/** Which groups keep a sample: one without a sample has no row that is preferred to any entry. */
module Stat4Selection {
  import opened IndexRows
  import opened Samples
  import opened Stat4Invariant
  import opened Stat4Collection
  import opened Stat4Closing
  import opened Stat4Push
  import opened Stat4Choice

  /** Row b for column j is preferred to row r for column i: its group is larger, or of the same
      size and for a shorter prefix, or b outranks r in the columns that follow. */
  ghost predicate Preferred(nCol: nat, rows: seq<Row>, h: Numbers, b: nat, j: nat, r: nat, i: nat)
    requires IsIndex(nCol, rows) && b < |rows| && r < |rows| && i < nCol && j < nCol
  {
    var n, m := NEq(nCol, rows, b, j), NEq(nCol, rows, r, i);
    n > m || (n == m && (j < i || (j == i && Outranks(nCol, rows, h, b, r, j + 1))))
  }

  /** As a sample for column j, row b is not preferred to any entry. */
  ghost predicate Outdone(nCol: nat, rows: seq<Row>, h: Numbers, a: seq<Sample>, b: nat, j: nat)
    requires IsIndex(nCol, rows) && b < |rows| && j < nCol && AllRanked(nCol, a)
  {
    forall k | 0 <= k < |a| && !a[k].isPSample :: !Better(nCol, RowSample(nCol, rows, h, b, j), a[k])
  }

  /** A row that could stand for row r's group of column j is not preferred to any entry. */
  ghost predicate Passed(nCol: nat, rows: seq<Row>, h: Numbers, a: seq<Sample>, r: nat, j: nat)
    requires IsIndex(nCol, rows) && r < |rows| && j < nCol - 1 && AllRanked(nCol, a)
  {
    exists b: nat :: b < |rows| && SameGroup(nCol, rows, b, r, j) && IsPassed(nCol, rows, h, a, b, j)
  }

  ghost predicate IsPassed(nCol: nat, rows: seq<Row>, h: Numbers, a: seq<Sample>, b: nat, j: nat)
    requires IsIndex(nCol, rows) && b < |rows| && j < nCol - 1 && AllRanked(nCol, a)
  {
    RowChosen(nCol, rows, h, b, j) && Outdone(nCol, rows, h, a, b, j)
  }

  ghost predicate KeptOrPassed(nCol: nat, rows: seq<Row>, h: Numbers, mx: nat, a: seq<Sample>, r: nat, j: nat)
    requires IsIndex(nCol, rows) && r < |rows| && j < nCol - 1 && Placed(nCol, rows, a)
  {
    Represented(nCol, rows, a, r, j) || (|a| >= mx && Passed(nCol, rows, h, a, r, j))
  }

  /** The entries are the preferred ones: what is said of each closed group. */
  ghost predicate AllPreferred(nCol: nat, rows: seq<Row>, h: Numbers, mx: nat, a: seq<Sample>, lo: int)
    requires IsIndex(nCol, rows) && Placed(nCol, rows, a)
  {
    forall r: nat, j: nat | r < |rows| && j < nCol && Closed(nCol, rows, lo, r, j) ::
      KeptOrPassed(nCol, rows, h, mx, a, r, j)
  }

  /** Every entry has a row that was chosen, and the entries are the preferred ones.  The groups of
      the columns from q on are closed. */
  ghost predicate Selected(nCol: nat, rows: seq<Row>, h: Numbers, mx: nat, a: seq<Sample>, q: int)
    requires IsIndex(nCol, rows)
  {
    AllChosen(nCol, rows, h, a) && Placed(nCol, rows, a) && AllPreferred(nCol, rows, h, mx, a, q - 1)
  }

  // ---- samples rank as their rows do ----

  lemma SameRankFrom(nCol: nat, x: Sample, y: Sample)
    requires Ranked(nCol, x) && Ranked(nCol, y) && x.iCol == y.iCol && x.iHash == y.iHash
    requires Alike(x, y, x.iCol, nCol)
    ensures SameRank(nCol, x, y)
  {
  }

  lemma EntryRank(nCol: nat, rows: seq<Row>, h: Numbers, period: nat, s: Sample, lo: int)
    requires IsIndex(nCol, rows) && period > 0 && SampleOk(nCol, rows, period, s, lo) && !s.isPSample
    requires EntryChosen(nCol, rows, h, s)
    ensures SameRank(nCol, s, RowSample(nCol, rows, h, RowOf(s), s.iCol))
  {
    SameRankFrom(nCol, s, RowSample(nCol, rows, h, RowOf(s), s.iCol));
  }

  lemma CandidateRank(nCol: nat, rows: seq<Row>, h: Numbers, best: Sample, i: nat)
    requires IsIndex(nCol, rows) && |rows| > 0 && BestChosen(nCol, rows, h, best, i)
    ensures SameRank(nCol, Candidate(nCol, rows, best, i), RowSample(nCol, rows, h, RowOf(best), i))
  {
    NEqOfGroup(nCol, rows, RowOf(best), |rows| - 1, i);
    SameRankFrom(nCol, Candidate(nCol, rows, best, i), RowSample(nCol, rows, h, RowOf(best), i));
  }

  lemma PreferredIsBetter(
      nCol: nat, rows: seq<Row>, h: Numbers, b: nat, j: nat, x: Sample, r: nat, i: nat, y: Sample)
    requires IsIndex(nCol, rows) && b < |rows| && r < |rows| && Ranked(nCol, x) && Ranked(nCol, y)
    requires x.iCol == j && HasCounts(nCol, rows, x, b, j) && x.iHash == h(b)
    requires y.iCol == i && HasCounts(nCol, rows, y, r, i) && y.iHash == h(r)
    ensures Preferred(nCol, rows, h, b, j, r, i) <==> Better(nCol, x, y)
  {
    if i == j {
      OutranksIsBetter(nCol, rows, h, b, r, j + 1, x, y);
    }
  }

  // ---- one column is closed ----

  lemma PreferredLower(nCol: nat, rows: seq<Row>, h: Numbers, mx: nat, a: seq<Sample>, i: nat)
    requires IsIndex(nCol, rows) && |rows| > 0 && i < nCol - 1 && Placed(nCol, rows, a)
    requires AllPreferred(nCol, rows, h, mx, a, i) && KeptOrPassed(nCol, rows, h, mx, a, |rows| - 1, i)
    ensures AllPreferred(nCol, rows, h, mx, a, i - 1)
  {
    var n, lo := |rows| - 1, i - 1;
    forall r: nat, j: nat | r < |rows| && j < nCol && Closed(nCol, rows, lo, r, j)
      ensures KeptOrPassed(nCol, rows, h, mx, a, r, j)
    {
      if !Closed(nCol, rows, i, r, j) {
        SameForGroup(nCol, rows, h, mx, a, n, r, i);
      }
    }
  }

  lemma SameForGroup(nCol: nat, rows: seq<Row>, h: Numbers, mx: nat, a: seq<Sample>, n: nat, r: nat, i: nat)
    requires IsIndex(nCol, rows) && n < |rows| && r < |rows| && i < nCol - 1 && Placed(nCol, rows, a)
    requires SameGroup(nCol, rows, r, n, i) && KeptOrPassed(nCol, rows, h, mx, a, n, i)
    ensures KeptOrPassed(nCol, rows, h, mx, a, r, i)
  {
    if Represented(nCol, rows, a, n, i) {
      var k: nat :| k < |a| && Represents(nCol, rows, a[k], n, i);
      assert Represents(nCol, rows, a[k], r, i);
    } else {
      var b: nat :| b < |rows| && SameGroup(nCol, rows, b, n, i) && IsPassed(nCol, rows, h, a, b, i);
      assert SameGroup(nCol, rows, b, r, i);
    }
  }

  /** What is not preferred to the minimum is not preferred to any entry. */
  lemma NotPreferredToAny(nCol: nat, a: seq<Sample>, m: nat, x: Sample, k: nat)
    requires AllRanked(nCol, a) && IsMinimum(nCol, a, m) && Ranked(nCol, x) && !Better(nCol, x, a[m])
    requires k < |a| && !a[k].isPSample
    ensures !Better(nCol, x, a[k])
  {
    BetterIsStrictWeakOrder(nCol, x, a[m], a[k]);
  }

  lemma BelowMinimumIsOutdone(
      nCol: nat, rows: seq<Row>, h: Numbers, a: seq<Sample>, m: nat, b: nat, j: nat)
    requires IsIndex(nCol, rows) && b < |rows| && j < nCol && AllRanked(nCol, a) && IsMinimum(nCol, a, m)
    requires !Better(nCol, RowSample(nCol, rows, h, b, j), a[m])
    ensures Outdone(nCol, rows, h, a, b, j)
  {
    forall k | 0 <= k < |a| && !a[k].isPSample
      ensures !Better(nCol, RowSample(nCol, rows, h, b, j), a[k])
    {
      NotPreferredToAny(nCol, a, m, RowSample(nCol, rows, h, b, j), k);
    }
  }

  /** A candidate that is rejected leaves a group whose chosen row is not preferred to any entry. */
  lemma RejectedIsPassed(
      nCol: nat, rows: seq<Row>, h: Numbers, a: seq<Sample>, iMin: nat, best: Sample, i: nat)
    requires IsIndex(nCol, rows) && |rows| > 0 && BestChosen(nCol, rows, h, best, i) && AllRanked(nCol, a)
    requires IsMinimum(nCol, a, iMin) && !Better(nCol, Candidate(nCol, rows, best, i), a[iMin])
    ensures Passed(nCol, rows, h, a, |rows| - 1, i)
  {
    var b := RowOf(best);
    CandidateRank(nCol, rows, h, best, i);
    BetterDepends(nCol, Candidate(nCol, rows, best, i), a[iMin], RowSample(nCol, rows, h, b, i), a[iMin]);
    BelowMinimumIsOutdone(nCol, rows, h, a, iMin, b, i);
    ChosenIsLargest(nCol, rows, h, b, i);
    assert IsPassed(nCol, rows, h, a, b, i);
  }

  // ---- an entry is upgraded ----

  /** An upgraded entry is preferred to what it was. */
  lemma UpgradeImproves(nCol: nat, rows: seq<Row>, period: nat, s: Sample, i: nat, u: Sample)
    requires IsIndex(nCol, rows) && |rows| > 0 && period > 0 && i < nCol
    requires SampleOk(nCol, rows, period, s, i) && !s.isPSample && s.anEq[i] == 0
    requires u == Upgraded(nCol, s, i, NEq(nCol, rows, |rows| - 1, i))
    ensures Better(nCol, u, s)
  {
    OpenSampleIsDeeper(nCol, rows, period, s, i);
    ZeroMeansOpen(nCol, rows, period, s, i);
    NEqOfGroup(nCol, rows, RowOf(s), |rows| - 1, i);
    NEqAntitone(nCol, rows, RowOf(s), i, s.iCol);
  }

  lemma UpgradeKeepsOutdone(
      nCol: nat, rows: seq<Row>, h: Numbers, a: seq<Sample>, t: nat, u: Sample, a': seq<Sample>, b: nat, j: nat)
    requires IsIndex(nCol, rows) && b < |rows| && j < nCol && AllRanked(nCol, a) && AllRanked(nCol, a')
    requires t < |a| && !a[t].isPSample && Ranked(nCol, u) && a' == a[t := u] && Better(nCol, u, a[t])
    requires Outdone(nCol, rows, h, a, b, j)
    ensures Outdone(nCol, rows, h, a', b, j)
  {
    BetterIsStrictWeakOrder(nCol, RowSample(nCol, rows, h, b, j), u, a[t]);
  }

  lemma UpgradeKeepsKept(
      nCol: nat, rows: seq<Row>, h: Numbers, mx: nat, a: seq<Sample>, i: nat, t: nat, a': seq<Sample>, r: nat, j: nat)
    requires IsIndex(nCol, rows) && |rows| > 0 && i < nCol && Placed(nCol, rows, a) && Placed(nCol, rows, a')
    requires IsUpgraded(nCol, rows, a, i, t, a') && i < a[t].iCol && !a[t].isPSample && Better(nCol, a'[t], a[t])
    requires r < |rows| && j < nCol - 1 && KeptOrPassed(nCol, rows, h, mx, a, r, j)
    ensures KeptOrPassed(nCol, rows, h, mx, a', r, j)
  {
    if Represented(nCol, rows, a, r, j) {
      UpgradeKeepsRepresented(nCol, rows, a, i, t, a', r, j);
    } else {
      var b: nat :| b < |rows| && SameGroup(nCol, rows, b, r, j) && IsPassed(nCol, rows, h, a, b, j);
      UpgradeKeepsOutdone(nCol, rows, h, a, t, a'[t], a', b, j);
      assert IsPassed(nCol, rows, h, a', b, j);
    }
  }

  lemma UpgradeKeepsPreferred(
      nCol: nat, rows: seq<Row>, h: Numbers, period: nat, mx: nat, a: seq<Sample>, i: nat, t: nat, a': seq<Sample>)
    requires IsIndex(nCol, rows) && |rows| > 0 && period > 0 && i < nCol - 1
    requires Placed(nCol, rows, a) && Placed(nCol, rows, a')
    requires AllOk(nCol, rows, period, a, i) && IsUpgrade(nCol, a, i, t) && IsUpgraded(nCol, rows, a, i, t, a')
    requires AllPreferred(nCol, rows, h, mx, a, i)
    ensures AllPreferred(nCol, rows, h, mx, a', i) && KeptOrPassed(nCol, rows, h, mx, a', |rows| - 1, i)
  {
    assert SampleOk(nCol, rows, period, a[t], i);
    OpenSampleIsDeeper(nCol, rows, period, a[t], i);
    UpgradeImproves(nCol, rows, period, a[t], i, a'[t]);
    forall r: nat, j: nat | r < |rows| && j < nCol && Closed(nCol, rows, i, r, j)
      ensures KeptOrPassed(nCol, rows, h, mx, a', r, j)
    {
      UpgradeKeepsKept(nCol, rows, h, mx, a, i, t, a', r, j);
    }
    ZeroMeansOpen(nCol, rows, period, a[t], i);
    UpgradedRepresents(nCol, rows, a, i, t, a');
  }

  // ---- an entry is evicted and another one appended ----

  /** What is not preferred to the evicted minimum is not preferred to what is left or to what is
      preferred to the minimum. */
  lemma EvictedIsOutdone(
      nCol: nat, rows: seq<Row>, h: Numbers, a: seq<Sample>, m: nat, s: Sample, a': seq<Sample>, b: nat, j: nat)
    requires IsIndex(nCol, rows) && b < |rows| && j < nCol && AllRanked(nCol, a) && AllRanked(nCol, a')
    requires IsMinimum(nCol, a, m) && Ranked(nCol, s) && (s.isPSample || Better(nCol, s, a[m]))
    requires a' == Without(a, m) + [s] && !Better(nCol, RowSample(nCol, rows, h, b, j), a[m])
    ensures Outdone(nCol, rows, h, a', b, j)
  {
    var x := RowSample(nCol, rows, h, b, j);
    forall k | 0 <= k < |a'| && !a'[k].isPSample
      ensures !Better(nCol, x, a'[k])
    {
      if k < |a'| - 1 {
        var k0 := if k < m then k else k + 1;
        assert a'[k] == a[k0];
        NotPreferredToAny(nCol, a, m, x, k0);
      } else {
        BetterIsStrictWeakOrder(nCol, x, s, a[m]);
      }
    }
  }

  /** A row that could stand for a group which the minimum stood for, or for a group inside it. */
  lemma StandInFor(
      nCol: nat, rows: seq<Row>, h: Numbers, period: nat, lo: int, s: Sample, r: nat, j: nat) returns (b: nat)
    requires IsIndex(nCol, rows) && period > 0 && SampleOk(nCol, rows, period, s, lo) && !s.isPSample
    requires EntryChosen(nCol, rows, h, s) && r < |rows| && j < nCol - 1 && Represents(nCol, rows, s, r, j)
    ensures b < |rows| && SameGroup(nCol, rows, b, r, j) && RowChosen(nCol, rows, h, b, j)
    ensures !Better(nCol, RowSample(nCol, rows, h, b, j), s)
  {
    if j == s.iCol {
      b := RowOf(s);
      EntryRank(nCol, rows, h, period, s, lo);
      BetterDepends(nCol, s, s, RowSample(nCol, rows, h, b, j), s);
      BetterIsStrictWeakOrder(nCol, s, s, s);
    } else {
      b := SomeIsChosen(nCol, rows, h, r, j);
      ChosenIsLargest(nCol, rows, h, b, j);
      NEqOfGroup(nCol, rows, b, RowOf(s), j);
      NEqAntitone(nCol, rows, RowOf(s), s.iCol, j);
    }
  }

  lemma EvictKeepsKept(
      nCol: nat, rows: seq<Row>, h: Numbers, period: nat, mx: nat, lo: int, a: seq<Sample>, m: nat, s: Sample,
      a': seq<Sample>, r: nat, j: nat)
    requires IsIndex(nCol, rows) && period > 0 && |a| == mx && Placed(nCol, rows, a) && Placed(nCol, rows, a')
    requires IsMinimum(nCol, a, m) && SampleOk(nCol, rows, period, a[m], lo) && EntryChosen(nCol, rows, h, a[m])
    requires Ranked(nCol, s) && (s.isPSample || Better(nCol, s, a[m])) && a' == Without(a, m) + [s]
    requires r < |rows| && j < nCol - 1 && KeptOrPassed(nCol, rows, h, mx, a, r, j)
    ensures KeptOrPassed(nCol, rows, h, mx, a', r, j)
  {
    if k: nat :| k < |a| && k != m && Represents(nCol, rows, a[k], r, j) {
      var k' := if k < m then k else k - 1;
      assert Represents(nCol, rows, a'[k'], r, j);
    } else {
      var b: nat;
      if Represents(nCol, rows, a[m], r, j) {
        b := StandInFor(nCol, rows, h, period, lo, a[m], r, j);
      } else {
        b :| b < |rows| && SameGroup(nCol, rows, b, r, j) && IsPassed(nCol, rows, h, a, b, j);
      }
      EvictedIsOutdone(nCol, rows, h, a, m, s, a', b, j);
      assert IsPassed(nCol, rows, h, a', b, j);
    }
  }

  /** An array with free places has an entry for every closed group. */
  lemma AppendKeepsKept(
      nCol: nat, rows: seq<Row>, h: Numbers, mx: nat, a: seq<Sample>, s: Sample, a': seq<Sample>, r: nat, j: nat)
    requires IsIndex(nCol, rows) && |a| < mx && Placed(nCol, rows, a) && Placed(nCol, rows, a') && a' == a + [s]
    requires r < |rows| && j < nCol - 1 && KeptOrPassed(nCol, rows, h, mx, a, r, j)
    ensures KeptOrPassed(nCol, rows, h, mx, a', r, j)
  {
    var k: nat :| k < |a| && Represents(nCol, rows, a[k], r, j);
    assert Represents(nCol, rows, a'[k], r, j);
  }

  lemma InsertKeepsPreferred(
      nCol: nat, rows: seq<Row>, h: Numbers, period: nat, mx: nat, lo: int, a: seq<Sample>, iMin: nat, s: Sample,
      a': seq<Sample>)
    requires IsIndex(nCol, rows) && period > 0 && |a| <= mx && Placed(nCol, rows, a) && Placed(nCol, rows, a')
    requires AllOk(nCol, rows, period, a, lo) && AllChosen(nCol, rows, h, a)
    requires |a| == mx ==> IsMinimum(nCol, a, iMin)
    requires Ranked(nCol, s) && (|a| == mx ==> s.isPSample || Better(nCol, s, a[iMin]))
    requires a' == WithRoom(a, mx, iMin) + [s] && AllPreferred(nCol, rows, h, mx, a, lo)
    ensures AllPreferred(nCol, rows, h, mx, a', lo)
  {
    forall r: nat, j: nat | r < |rows| && j < nCol && Closed(nCol, rows, lo, r, j)
      ensures KeptOrPassed(nCol, rows, h, mx, a', r, j)
    {
      if |a| == mx {
        EvictKeepsKept(nCol, rows, h, period, mx, lo, a, iMin, s, a', r, j);
      } else {
        AppendKeepsKept(nCol, rows, h, mx, a, s, a', r, j);
      }
    }
  }

  // ---- a candidate is offered ----

  /** The array is full, and the candidate is not preferred to its minimum. */
  ghost predicate IsRejected(
      nCol: nat, rows: seq<Row>, mx: nat, best: Sample, i: nat, a: seq<Sample>, iMin: nat, a': seq<Sample>)
    requires IsIndex(nCol, rows) && |rows| > 0 && BestOk(nCol, rows, best, i) && AllRanked(nCol, a)
  {
    a' == a && |a| == mx && iMin < |a| && !Better(nCol, Candidate(nCol, rows, best, i), a[iMin])
  }

  /** A periodic entry lies in the group. */
  ghost predicate IsCovered(nCol: nat, i: nat, a: seq<Sample>, a': seq<Sample>)
    requires AllRanked(nCol, a) && i < nCol
  {
    a' == a && exists p :: 0 <= p < |a| && a[p].isPSample && a[p].anEq[i] == 0
  }

  /** The preferred entry of the group now stands for it. */
  ghost predicate IsUpgradedTo(nCol: nat, rows: seq<Row>, i: nat, a: seq<Sample>, a': seq<Sample>)
    requires IsIndex(nCol, rows) && |rows| > 0 && AllRanked(nCol, a) && i < nCol
  {
    exists t :: IsUpgrade(nCol, a, i, t) && IsUpgraded(nCol, rows, a, i, t, a')
  }

  /** The candidate is in the array, in the place of the minimum if the array was full. */
  ghost predicate IsInserted(
      nCol: nat, rows: seq<Row>, mx: nat, best: Sample, i: nat, a: seq<Sample>, iMin: nat, a': seq<Sample>)
    requires IsIndex(nCol, rows) && |rows| > 0 && BestOk(nCol, rows, best, i) && AllRanked(nCol, a)
  {
    && (|a| >= mx ==> iMin < |a| && Better(nCol, Candidate(nCol, rows, best, i), a[iMin]))
    && a' == WithRoom(a, mx, iMin) + [Zeroed(Candidate(nCol, rows, best, i), i)]
  }

  /** What offering a candidate makes of the array. */
  ghost predicate AfterOffer(
      nCol: nat, rows: seq<Row>, mx: nat, best: Sample, i: nat, a: seq<Sample>, iMin: nat, a': seq<Sample>)
    requires IsIndex(nCol, rows) && |rows| > 0 && BestOk(nCol, rows, best, i) && AllRanked(nCol, a)
  {
    || IsRejected(nCol, rows, mx, best, i, a, iMin, a')
    || IsCovered(nCol, i, a, a')
    || IsUpgradedTo(nCol, rows, i, a, a')
    || IsInserted(nCol, rows, mx, best, i, a, iMin, a')
  }

  lemma ChosenPlaced(nCol: nat, rows: seq<Row>, h: Numbers, a: seq<Sample>)
    requires IsIndex(nCol, rows) && AllChosen(nCol, rows, h, a)
    ensures Placed(nCol, rows, a)
  {
  }

  lemma RejectSelects(
      nCol: nat, rows: seq<Row>, h: Numbers, mx: nat, best: Sample, i: nat, a: seq<Sample>, iMin: nat)
    requires IsIndex(nCol, rows) && |rows| > 0 && BestChosen(nCol, rows, h, best, i)
    requires Selected(nCol, rows, h, mx, a, i + 1) && IsRejected(nCol, rows, mx, best, i, a, iMin, a)
    requires IsMinimum(nCol, a, iMin)
    ensures Selected(nCol, rows, h, mx, a, i)
  {
    RejectedIsPassed(nCol, rows, h, a, iMin, best, i);
    PreferredLower(nCol, rows, h, mx, a, i);
  }

  lemma CoverSelects(nCol: nat, rows: seq<Row>, h: Numbers, period: nat, mx: nat, i: nat, a: seq<Sample>)
    requires IsIndex(nCol, rows) && |rows| > 0 && period > 0 && i < nCol - 1 && AllOk(nCol, rows, period, a, i)
    requires Selected(nCol, rows, h, mx, a, i + 1) && IsCovered(nCol, i, a, a)
    ensures Selected(nCol, rows, h, mx, a, i)
  {
    var p: nat :| p < |a| && a[p].isPSample && a[p].anEq[i] == 0;
    PeriodicRepresents(nCol, rows, period, a, i, p);
    PreferredLower(nCol, rows, h, mx, a, i);
  }

  lemma UpgradeSelects(
      nCol: nat, rows: seq<Row>, h: Numbers, period: nat, mx: nat, i: nat, a: seq<Sample>, a': seq<Sample>)
    requires IsIndex(nCol, rows) && |rows| > 0 && period > 0 && i < nCol - 1 && AllOk(nCol, rows, period, a, i)
    requires AllServed(nCol, rows, mx, a, i)
    requires Selected(nCol, rows, h, mx, a, i + 1) && IsUpgradedTo(nCol, rows, i, a, a')
    ensures Selected(nCol, rows, h, mx, a', i)
  {
    var t :| IsUpgrade(nCol, a, i, t) && IsUpgraded(nCol, rows, a, i, t, a');
    UpgradeKeepsChosen(nCol, rows, h, period, mx, a, i, t, a');
    ChosenPlaced(nCol, rows, h, a');
    UpgradeKeepsPreferred(nCol, rows, h, period, mx, a, i, t, a');
    PreferredLower(nCol, rows, h, mx, a', i);
  }

  lemma InsertedRank(nCol: nat, c: Sample)
    requires Ranked(nCol, c)
    ensures SameRank(nCol, c, Zeroed(c, c.iCol))
  {
    SameRankFrom(nCol, c, Zeroed(c, c.iCol));
  }

  lemma AppendSelects(
      nCol: nat, rows: seq<Row>, h: Numbers, period: nat, mx: nat, i: nat, a: seq<Sample>, iMin: nat, s: Sample,
      a': seq<Sample>)
    requires IsIndex(nCol, rows) && |rows| > 0 && period > 0 && i < nCol - 1
    requires AllOk(nCol, rows, period, a, i) && |a| <= mx && (|a| == mx ==> IsMinimum(nCol, a, iMin))
    requires Selected(nCol, rows, h, mx, a, i + 1) && EntryChosen(nCol, rows, h, s)
    requires Represents(nCol, rows, s, |rows| - 1, i) && (|a| == mx ==> Better(nCol, s, a[iMin]))
    requires a' == WithRoom(a, mx, iMin) + [s]
    ensures Selected(nCol, rows, h, mx, a', i)
  {
    AppendKeepsChosen(nCol, rows, h, mx, a, iMin, s, a');
    ChosenPlaced(nCol, rows, h, a');
    InsertKeepsPreferred(nCol, rows, h, period, mx, i, a, iMin, s, a');
    assert Represents(nCol, rows, a'[|a'| - 1], |rows| - 1, i);
    PreferredLower(nCol, rows, h, mx, a', i);
  }

  lemma InsertedIsBetter(nCol: nat, rows: seq<Row>, best: Sample, i: nat, x: Sample)
    requires IsIndex(nCol, rows) && |rows| > 0 && BestOk(nCol, rows, best, i) && Ranked(nCol, x)
    requires Better(nCol, Candidate(nCol, rows, best, i), x)
    ensures Better(nCol, Zeroed(Candidate(nCol, rows, best, i), i), x)
  {
    var c := Candidate(nCol, rows, best, i);
    InsertedRank(nCol, c);
    BetterDepends(nCol, c, x, Zeroed(c, i), x);
  }

  lemma InsertSelects(
      nCol: nat, rows: seq<Row>, h: Numbers, period: nat, mx: nat, best: Sample, i: nat, a: seq<Sample>, iMin: nat,
      a': seq<Sample>)
    requires IsIndex(nCol, rows) && |rows| > 0 && period > 0 && BestChosen(nCol, rows, h, best, i)
    requires AllOk(nCol, rows, period, a, i) && |a| <= mx && (|a| == mx ==> IsMinimum(nCol, a, iMin))
    requires Selected(nCol, rows, h, mx, a, i + 1) && IsInserted(nCol, rows, mx, best, i, a, iMin, a')
    ensures Selected(nCol, rows, h, mx, a', i)
  {
    var s := Zeroed(Candidate(nCol, rows, best, i), i);
    InsertedIsChosen(nCol, rows, h, best, i, s);
    InsertedRepresents(nCol, rows, best, i, s);
    if |a| == mx {
      InsertedIsBetter(nCol, rows, best, i, a[iMin]);
    }
    AppendSelects(nCol, rows, h, period, mx, i, a, iMin, s, a');
  }

  /** Whatever an offer makes of the array, it closes one more column. */
  lemma OfferSelects(
      nCol: nat, rows: seq<Row>, h: Numbers, period: nat, mx: nat, best: Sample, i: nat, a: seq<Sample>, iMin: nat,
      a': seq<Sample>)
    requires IsIndex(nCol, rows) && |rows| > 0 && period > 0 && BestChosen(nCol, rows, h, best, i)
    requires AllOk(nCol, rows, period, a, i) && AllServed(nCol, rows, mx, a, i)
    requires |a| <= mx && (|a| == mx ==> IsMinimum(nCol, a, iMin))
    requires Selected(nCol, rows, h, mx, a, i + 1) && AfterOffer(nCol, rows, mx, best, i, a, iMin, a')
    ensures Selected(nCol, rows, h, mx, a', i)
  {
    if IsRejected(nCol, rows, mx, best, i, a, iMin, a') {
      RejectSelects(nCol, rows, h, mx, best, i, a, iMin);
    } else if IsCovered(nCol, i, a, a') {
      CoverSelects(nCol, rows, h, period, mx, i, a);
    } else if IsUpgradedTo(nCol, rows, i, a, a') {
      UpgradeSelects(nCol, rows, h, period, mx, i, a, a');
    } else {
      InsertSelects(nCol, rows, h, period, mx, best, i, a, iMin, a');
    }
  }

  // ---- counts are filled in, and the next row arrives ----

  lemma FillKeepsKept(
      nCol: nat, rows: seq<Row>, h: Numbers, mx: nat, a: seq<Sample>, b: seq<Sample>, r: nat, j: nat)
    requires IsIndex(nCol, rows) && SameEntries(nCol, a, b) && Placed(nCol, rows, a) && Placed(nCol, rows, b)
    requires r < |rows| && j < nCol - 1 && KeptOrPassed(nCol, rows, h, mx, a, r, j)
    ensures KeptOrPassed(nCol, rows, h, mx, b, r, j)
  {
    if Represented(nCol, rows, a, r, j) {
      var k: nat :| k < |a| && Represents(nCol, rows, a[k], r, j);
      assert Represents(nCol, rows, b[k], r, j);
    } else {
      var c: nat :| c < |rows| && SameGroup(nCol, rows, c, r, j) && IsPassed(nCol, rows, h, a, c, j);
      var x := RowSample(nCol, rows, h, c, j);
      forall k | 0 <= k < |b| && !b[k].isPSample
        ensures !Better(nCol, x, b[k])
      {
        BetterDepends(nCol, x, a[k], x, b[k]);
      }
      assert IsPassed(nCol, rows, h, b, c, j);
    }
  }

  lemma FillSelects(
      nCol: nat, rows: seq<Row>, h: Numbers, period: nat, mx: nat, cur: Sample, a: seq<Sample>, d: nat, b: seq<Sample>)
    requires IsIndex(nCol, rows) && |rows| > 0 && period > 0 && CurrentOk(nCol, rows, cur)
    requires AllOk(nCol, rows, period, a, d - 1) && b == FilledAll(nCol, cur, a, d)
    requires Selected(nCol, rows, h, mx, a, d)
    ensures Selected(nCol, rows, h, mx, b, d)
  {
    FillKeepsChosen(nCol, rows, h, cur, a, d, b);
    FilledAllOk(nCol, rows, period, cur, a, d, b);
    var lo := d - 1;
    forall r: nat, j: nat | r < |rows| && j < nCol && Closed(nCol, rows, lo, r, j)
      ensures KeptOrPassed(nCol, rows, h, mx, b, r, j)
    {
      FillKeepsKept(nCol, rows, h, mx, a, b, r, j);
    }
  }

  lemma RowSampleAfterPush(nCol: nat, rows: seq<Row>, row: Row, h: Numbers, b: nat, j: nat)
    requires Extends(nCol, rows, row) && b < |rows| && j < nCol && !SameGroup(nCol, rows + [row], b, |rows|, j)
    ensures SameRank(nCol, RowSample(nCol, rows, h, b, j), RowSample(nCol, rows + [row], h, b, j))
  {
    var x, y := RowSample(nCol, rows, h, b, j), RowSample(nCol, rows + [row], h, b, j);
    forall q | j <= q < nCol
      ensures x.anEq[q] == y.anEq[q]
    {
      CountsAfterPush(nCol, rows, row, b, j, q);
    }
    SameRankFrom(nCol, x, y);
  }

  lemma KeptAfterPush(
      nCol: nat, rows: seq<Row>, row: Row, h: Numbers, mx: nat, a: seq<Sample>, r: nat, j: nat)
    requires Extends(nCol, rows, row) && Placed(nCol, rows, a) && r < |rows| && j < nCol - 1
    requires !SameGroup(nCol, rows + [row], r, |rows|, j) && KeptOrPassed(nCol, rows, h, mx, a, r, j)
    ensures Placed(nCol, rows + [row], a) && KeptOrPassed(nCol, rows + [row], h, mx, a, r, j)
  {
    var rows' := rows + [row];
    if Represented(nCol, rows, a, r, j) {
      var k: nat :| k < |a| && Represents(nCol, rows, a[k], r, j);
      assert Represents(nCol, rows', a[k], r, j);
    } else {
      var b: nat :| b < |rows| && SameGroup(nCol, rows, b, r, j) && IsPassed(nCol, rows, h, a, b, j);
      assert SameGroup(nCol, rows', b, r, j);
      RowChosenAfterPush(nCol, rows, row, h, b, j);
      RowSampleAfterPush(nCol, rows, row, h, b, j);
      forall k | 0 <= k < |a| && !a[k].isPSample
        ensures !Better(nCol, RowSample(nCol, rows', h, b, j), a[k])
      {
        BetterDepends(nCol, RowSample(nCol, rows, h, b, j), a[k], RowSample(nCol, rows', h, b, j), a[k]);
      }
      assert IsPassed(nCol, rows', h, a, b, j);
    }
  }

  /** The first row closes no group. */
  lemma FirstRowSelects(nCol: nat, rows: seq<Row>, h: Numbers, mx: nat)
    requires IsIndex(nCol, rows) && |rows| == 1
    ensures Selected(nCol, rows, h, mx, [], nCol - 1)
  {
  }

  /** The next row opens groups and closes none that is not closed already. */
  lemma PushSelects(
      nCol: nat, rows: seq<Row>, row: Row, h: Numbers, period: nat, mx: nat, a: seq<Sample>, d: nat)
    requires Extends(nCol, rows, row) && period > 0 && d == Diff(rows[|rows| - 1].key, row.key)
    requires AllOk(nCol, rows, period, a, d - 1) && Selected(nCol, rows, h, mx, a, d)
    ensures Selected(nCol, rows + [row], h, mx, a, nCol - 1)
  {
    AllChosenAfterPush(nCol, rows, row, h, period, a, d);
    var rows', lo := rows + [row], nCol - 2;
    forall r: nat, j: nat | r < |rows'| && j < nCol && Closed(nCol, rows', lo, r, j)
      ensures KeptOrPassed(nCol, rows', h, mx, a, r, j)
    {
      OpenAfterPush(nCol, rows, row, r, j);
      assert Closed(nCol, rows, d - 1, r, j);
      KeptAfterPush(nCol, rows, row, h, mx, a, r, j);
    }
  }

  /** Taking a periodic sample closes no group. */
  lemma PeriodicSelects(
      nCol: nat, rows: seq<Row>, h: Numbers, period: nat, mx: nat, a: seq<Sample>, iMin: nat, s: Sample,
      a': seq<Sample>)
    requires IsIndex(nCol, rows) && |rows| > 0 && period > 0 && ArrivedAt(nCol, rows, period, mx, a, iMin)
    requires Selected(nCol, rows, h, mx, a, nCol - 1) && EntryChosen(nCol, rows, h, s) && s.isPSample
    requires (|a| >= mx ==> iMin < |a|) && a' == WithRoom(a, mx, iMin) + [s]
    ensures Selected(nCol, rows, h, mx, a', nCol - 1)
  {
    AppendKeepsChosen(nCol, rows, h, mx, a, iMin, s, a');
    ChosenPlaced(nCol, rows, h, a');
    InsertKeepsPreferred(nCol, rows, h, period, mx, nCol - 2, a, iMin, s, a');
  }
}
