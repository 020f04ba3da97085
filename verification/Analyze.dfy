/** One index analysed from its first row to its last, as the generated program drives
    stat_init(), stat_push() and stat_get(). */
module Analyze {
  import opened Arith
  import opened IndexRows
  import opened Samples
  import opened Stat4Invariant
  import opened Stat4Collection
  import opened Stat4Choice
  import opened Stat4Selection
  import opened StatText
  import opened Stat4

  /** One row of the sqlite_stat4 table. */
  datatype Entry = Entry(rowid: Rowid, nEq: string, nLt: string, nDLt: string)

  /** The entry describes row r with whole-index counts. */
  ghost predicate Describes(nCol: nat, rows: seq<Row>, e: Entry, r: nat)
    requires IsIndex(nCol, rows) && r < |rows|
  {
    && e.rowid == rows[r].rowid
    && e.nEq == Printed(EqList(nCol, rows, r))
    && e.nLt == Printed(LtList(nCol, rows, r))
    && e.nDLt == Printed(DLtList(nCol, rows, r))
  }

  /** The sampled rows, in index order. */
  ghost predicate InOrder(rows: seq<Row>, at: seq<nat>) {
    && (forall k | 0 <= k < |at| :: at[k] < |rows|)
    && (forall k, l | 0 <= k < l < |at| :: at[k] < at[l])
  }

  ghost predicate GroupSampled(nCol: nat, rows: seq<Row>, at: seq<nat>, r: nat, j: nat)
    requires IsIndex(nCol, rows) && r < |rows| && j < nCol && InOrder(rows, at)
  {
    exists k :: 0 <= k < |at| && SameGroup(nCol, rows, at[k], r, j)
  }

  /** Every group through column j has a sample, unless all mx places are taken and each
      sample that is not evenly spaced stands, in its column, for a group at least as large. */
  ghost predicate LargestGroupsSampled(nCol: nat, rows: seq<Row>, period: nat, mx: nat, at: seq<nat>, cols: seq<nat>)
    requires IsIndex(nCol, rows) && InOrder(rows, at) && period > 0
  {
    && |cols| == |at| && (forall k | 0 <= k < |cols| :: cols[k] < nCol)
    && forall r: nat, j: nat | r < |rows| && j < nCol - 1 ::
         || GroupSampled(nCol, rows, at, r, j)
         || (&& |at| == mx
             && forall k | 0 <= k < |at| && !IsPeriodic(period, at[k]) ::
                  NEq(nCol, rows, r, j) <= NEq(nCol, rows, at[k], cols[k]))
  }

  /** The samples that are not evenly spaced stand for different groups: of two of them, the one
      with the wider group is not in the group of the other. */
  ghost predicate DistinctGroups(nCol: nat, rows: seq<Row>, period: nat, at: seq<nat>, cols: seq<nat>)
    requires IsIndex(nCol, rows) && InOrder(rows, at) && period > 0
  {
    && |cols| == |at| && (forall k | 0 <= k < |cols| && !IsPeriodic(period, at[k]) :: cols[k] < nCol - 1)
    && forall k, l | 0 <= k < |at| && 0 <= l < |at| && k != l
                     && !IsPeriodic(period, at[k]) && !IsPeriodic(period, at[l]) && cols[k] <= cols[l] ::
         !SameGroup(nCol, rows, at[k], at[l], cols[l])
  }

  /** The row of each sample that is not evenly spaced lies in a largest group of the column behind
      its own, and is the row chosen for its group of that column or a later one. */
  ghost predicate RowsChosen(nCol: nat, rows: seq<Row>, h: Numbers, period: nat, at: seq<nat>, cols: seq<nat>)
    requires IsIndex(nCol, rows) && InOrder(rows, at) && period > 0 && |cols| == |at|
  {
    forall k | 0 <= k < |at| && !IsPeriodic(period, at[k]) ::
      cols[k] < nCol - 1 && RowChosen(nCol, rows, h, at[k], cols[k])
  }

  /** Some row that could stand for row r's group of column j is not preferred to any sample. */
  ghost predicate GroupPassed(
      nCol: nat, rows: seq<Row>, h: Numbers, period: nat, at: seq<nat>, cols: seq<nat>, r: nat, j: nat)
    requires IsIndex(nCol, rows) && InOrder(rows, at) && period > 0 && r < |rows| && j < nCol - 1
    requires |cols| == |at| && forall k | 0 <= k < |cols| :: cols[k] < nCol
  {
    exists b: nat ::
      && b < |rows| && SameGroup(nCol, rows, b, r, j) && RowChosen(nCol, rows, h, b, j)
      && forall k | 0 <= k < |at| && !IsPeriodic(period, at[k]) :: !Preferred(nCol, rows, h, b, j, at[k], cols[k])
  }

  /** Every group has a sample, unless all mx places are taken by samples that are preferred. */
  ghost predicate PreferredGroupsSampled(
      nCol: nat, rows: seq<Row>, h: Numbers, period: nat, mx: nat, at: seq<nat>, cols: seq<nat>)
    requires IsIndex(nCol, rows) && InOrder(rows, at) && period > 0
    requires |cols| == |at| && forall k | 0 <= k < |cols| :: cols[k] < nCol
  {
    forall r: nat, j: nat | r < |rows| && j < nCol - 1 ::
      || GroupSampled(nCol, rows, at, r, j)
      || (|at| == mx && GroupPassed(nCol, rows, h, period, at, cols, r, j))
  }

  ghost predicate EvenlySpacedSampled(rows: seq<Row>, period: nat, at: seq<nat>)
    requires period > 0
  {
    forall r: nat | r < |rows| && IsPeriodic(period, r) :: r in at
  }

  ghost function RowsOf(nCol: nat, a: seq<Sample>): (at: seq<nat>)
    requires AllRanked(nCol, a)
    ensures |at| == |a| && forall k | 0 <= k < |a| :: at[k] == RowOf(a[k])
  {
    seq(|a|, k requires 0 <= k < |a| => RowOf(a[k]))
  }

  ghost function ColsOf(nCol: nat, a: seq<Sample>): (cols: seq<nat>)
    requires AllRanked(nCol, a)
    ensures |cols| == |a| && forall k | 0 <= k < |a| :: cols[k] == a[k].iCol
  {
    seq(|a|, k requires 0 <= k < |a| => a[k].iCol)
  }

  lemma ServedSampled(
      nCol: nat, rows: seq<Row>, period: nat, mx: nat, a: seq<Sample>, iMin: nat, at: seq<nat>, cols: seq<nat>,
      r: nat, j: nat)
    requires IsIndex(nCol, rows) && period > 0 && Collected(nCol, rows, period, mx, a, iMin, -1)
    requires at == RowsOf(nCol, a) && cols == ColsOf(nCol, a) && InOrder(rows, at)
    requires r < |rows| && j < nCol - 1
    ensures || GroupSampled(nCol, rows, at, r, j)
            || (&& |at| == mx
                && forall k | 0 <= k < |at| && !IsPeriodic(period, at[k]) ::
                     NEq(nCol, rows, r, j) <= NEq(nCol, rows, at[k], cols[k]))
  {
    assert Closed(nCol, rows, -1, r, j);
    assert Served(nCol, rows, mx, a, r, j);
    if Represented(nCol, rows, a, r, j) {
      var k: nat :| k < |a| && Represents(nCol, rows, a[k], r, j);
      assert SameGroup(nCol, rows, at[k], r, j);
    } else {
      forall k | 0 <= k < |at| && !IsPeriodic(period, at[k])
        ensures NEq(nCol, rows, r, j) <= NEq(nCol, rows, at[k], cols[k])
      {
        assert SampleOk(nCol, rows, period, a[k], -1);
        assert NEq(nCol, rows, r, j) <= Score(nCol, a[k]);
      }
    }
  }

  lemma ApartMeansDistinct(nCol: nat, rows: seq<Row>, period: nat, a: seq<Sample>, at: seq<nat>, cols: seq<nat>)
    requires IsIndex(nCol, rows) && period > 0 && AllOk(nCol, rows, period, a, -1) && StandApart(nCol, rows, a)
    requires AllRanked(nCol, a) && at == RowsOf(nCol, a) && cols == ColsOf(nCol, a) && InOrder(rows, at)
    ensures DistinctGroups(nCol, rows, period, at, cols)
  {
    forall k | 0 <= k < |a|
      ensures a[k].isPSample <==> IsPeriodic(period, at[k])
      ensures !a[k].isPSample ==> cols[k] < nCol - 1
    {
      assert SampleOk(nCol, rows, period, a[k], -1);
    }
    forall k, l | 0 <= k < |at| && 0 <= l < |at| && k != l
                  && !IsPeriodic(period, at[k]) && !IsPeriodic(period, at[l]) && cols[k] <= cols[l]
      ensures !SameGroup(nCol, rows, at[k], at[l], cols[l])
    {
      assert Apart(nCol, rows, a[k], a[l]);
    }
  }

  /** What the final sample array says about the whole index. */
  lemma CollectedSamples(
      nCol: nat, rows: seq<Row>, period: nat, mx: nat, a: seq<Sample>, iMin: nat, at: seq<nat>, cols: seq<nat>)
    requires IsIndex(nCol, rows) && period > 0 && Collected(nCol, rows, period, mx, a, iMin, -1)
    requires AllRanked(nCol, a) && at == RowsOf(nCol, a) && cols == ColsOf(nCol, a)
    ensures InOrder(rows, at)
    ensures EvenlySpacedSampled(rows, period, at)
    ensures LargestGroupsSampled(nCol, rows, period, mx, at, cols)
    ensures DistinctGroups(nCol, rows, period, at, cols)
  {
    ApartMeansDistinct(nCol, rows, period, a, at, cols);
    forall r: nat | r < |rows| && IsPeriodic(period, r)
      ensures r in at
    {
      assert HasRow(nCol, a, r);
      var k: nat :| k < |a| && RowOf(a[k]) == r;
      assert at[k] == r;
    }
    forall r: nat, j: nat | r < |rows| && j < nCol - 1
      ensures || GroupSampled(nCol, rows, at, r, j)
              || (&& |at| == mx
                  && forall k | 0 <= k < |at| && !IsPeriodic(period, at[k]) ::
                       NEq(nCol, rows, r, j) <= NEq(nCol, rows, at[k], cols[k]))
    {
      ServedSampled(nCol, rows, period, mx, a, iMin, at, cols, r, j);
    }
  }

  lemma PassedGroup(
      nCol: nat, rows: seq<Row>, h: Numbers, period: nat, a: seq<Sample>, at: seq<nat>, cols: seq<nat>, r: nat, j: nat)
    requires IsIndex(nCol, rows) && period > 0 && AllOk(nCol, rows, period, a, -1) && AllChosen(nCol, rows, h, a)
    requires AllRanked(nCol, a) && at == RowsOf(nCol, a) && cols == ColsOf(nCol, a) && InOrder(rows, at)
    requires r < |rows| && j < nCol - 1 && Passed(nCol, rows, h, a, r, j)
    ensures GroupPassed(nCol, rows, h, period, at, cols, r, j)
  {
    var b: nat :| b < |rows| && SameGroup(nCol, rows, b, r, j) && IsPassed(nCol, rows, h, a, b, j);
    forall k | 0 <= k < |at| && !IsPeriodic(period, at[k])
      ensures !Preferred(nCol, rows, h, b, j, at[k], cols[k])
    {
      assert SampleOk(nCol, rows, period, a[k], -1) && EntryChosen(nCol, rows, h, a[k]);
      PreferredIsBetter(nCol, rows, h, b, j, RowSample(nCol, rows, h, b, j), at[k], cols[k], a[k]);
    }
  }

  /** What the choice of rows and entries says about the whole index. */
  lemma SelectedSamples(
      nCol: nat, rows: seq<Row>, h: Numbers, period: nat, mx: nat, a: seq<Sample>, at: seq<nat>, cols: seq<nat>)
    requires IsIndex(nCol, rows) && period > 0 && AllOk(nCol, rows, period, a, -1) && |a| <= mx
    requires Selected(nCol, rows, h, mx, a, 0)
    requires AllRanked(nCol, a) && at == RowsOf(nCol, a) && cols == ColsOf(nCol, a) && InOrder(rows, at)
    ensures RowsChosen(nCol, rows, h, period, at, cols)
    ensures PreferredGroupsSampled(nCol, rows, h, period, mx, at, cols)
  {
    forall k | 0 <= k < |at| && !IsPeriodic(period, at[k])
      ensures cols[k] < nCol - 1 && RowChosen(nCol, rows, h, at[k], cols[k])
    {
      assert SampleOk(nCol, rows, period, a[k], -1) && EntryChosen(nCol, rows, h, a[k]);
    }
    forall r: nat, j: nat | r < |rows| && j < nCol - 1
      ensures || GroupSampled(nCol, rows, at, r, j)
              || (|at| == mx && GroupPassed(nCol, rows, h, period, at, cols, r, j))
    {
      assert Closed(nCol, rows, -1, r, j);
      assert KeptOrPassed(nCol, rows, h, mx, a, r, j);
      if Represented(nCol, rows, a, r, j) {
        var k: nat :| k < |a| && Represents(nCol, rows, a[k], r, j);
        assert SameGroup(nCol, rows, at[k], r, j);
      } else {
        PassedGroup(nCol, rows, h, period, a, at, cols, r, j);
      }
    }
  }

  /** The lists of an entry, read back by the statistics loader, are the exact counts, as long as
      the row-count type can count the rows. */
  lemma {:induction false} EntryReadsBack(nCol: nat, rows: seq<Row>, e: Entry, r: nat, w: nat)
    requires IsIndex(nCol, rows) && r < |rows| < w && Describes(nCol, rows, e, r)
    ensures Decoded(e.nEq, nCol, w) == EqList(nCol, rows, r)
    ensures Decoded(e.nLt, nCol, w) == LtList(nCol, rows, r)
    ensures Decoded(e.nDLt, nCol, w) == DLtList(nCol, rows, r)
  {
    forall j | 0 <= j < nCol
      ensures NEq(nCol, rows, r, j) < w && NLt(nCol, rows, r, j) < w && NDLt(nCol, rows, r, j) < w
    {
      CountsAtMostRows(nCol, rows, r, j);
    }
    PrintedDecodes(EqList(nCol, rows, r), nCol, w);
    PrintedDecodes(LtList(nCol, rows, r), nCol, w);
    PrintedDecodes(DLtList(nCol, rows, r), nCol, w);
  }

  /** So are the row count and the averages of a stat1 entry. */
  lemma {:induction false} Stat1ReadsBack(nCol: nat, nKeyCol: nat, rows: seq<Row>, w: nat)
    requires IsIndex(nCol, rows) && 0 < |rows| < w && nKeyCol <= nCol
    ensures var xs := [|rows|] + EstimateList(nCol, rows, nKeyCol);
            Decoded(Printed(xs), nKeyCol + 1, w) == xs
  {
    var estimates := EstimateList(nCol, rows, nKeyCol);
    forall i | 0 <= i < nKeyCol
      ensures estimates[i] < w
    {
      DistinctUpToLast(nCol, rows, i);
      CeilingAtMost(estimates[i], |rows|, NDistinct(nCol, rows, i));
    }
    PrintedDecodes([|rows|] + estimates, nKeyCol + 1, w);
  }

  lemma CeilingAtMost(e: nat, n: nat, d: nat)
    requires d > 0 && IsCeiling(e, n, d)
    ensures e <= n
  {
    if e > 0 { MulMonotone(e - 1, 1, d); }
  }

  /** Push one row, with the left-most column in which it differs from the row before. */
  method ScanRow(acc: Stat4Accum, rows: seq<Row>, i: nat)
    requires acc.Scanning() && acc.total == |rows| && IsIndex(acc.nCol, rows)
    requires i < |rows| && acc.rows == rows[..i]
    modifies acc
    ensures acc.Scanning() && acc.rows == rows[..i + 1]
  {
    var regChng := if i > 0 then Diff(rows[i - 1].key, rows[i].key) else 0;
    IsNextRow(acc, rows, i, regChng);
    acc.StatPush(regChng, rows[i].rowid, rows[i].key);
    TakeNext(rows, i);
  }

  lemma TakeNext(rows: seq<Row>, i: nat)
    requires i < |rows|
    ensures rows[..i + 1] == rows[..i] + [Row(rows[i].key, rows[i].rowid)]
  {
  }

  lemma IsNextRow(acc: Stat4Accum, rows: seq<Row>, i: nat, iChng: nat)
    requires acc.nCol > 0 && IsIndex(acc.nCol, acc.rows) && IsIndex(acc.nCol, rows)
    requires i < |rows| && acc.rows == rows[..i]
    requires iChng == if i > 0 then Diff(rows[i - 1].key, rows[i].key) else 0
    ensures acc.NextRow(iChng, rows[i].key)
  {
    if i > 0 {
      assert LexLess(rows[i - 1].key, rows[i].key);
    }
  }

  /** Push every row of the index. */
  method Scan(acc: Stat4Accum, rows: seq<Row>)
    requires acc.Scanning() && acc.rows == [] && acc.total == |rows| && IsIndex(acc.nCol, rows)
    modifies acc
    ensures acc.Scanning() && acc.rows == rows
  {
    var i := 0;
    while i < |rows|
      invariant 0 <= i <= |rows|
      invariant acc.Scanning() && acc.rows == rows[..i]
    {
      ScanRow(acc, rows, i);
      i := i + 1;
    }
    assert rows[..i] == rows;
  }

  /** One stat4 row, from the three lists of the current sample. */
  method ReadEntry(acc: Stat4Accum, rowid: Rowid, ghost r: nat) returns (e: Entry)
    requires 0 <= acc.iGet < |acc.a| && IsIndex(acc.nCol, acc.rows)
    requires Exact(acc.nCol, acc.rows, acc.a[acc.iGet]) && r == RowOf(acc.a[acc.iGet])
    requires rowid == acc.rows[r].rowid
    modifies acc`iGet
    ensures acc.iGet == old(acc.iGet) + 1
    ensures Describes(acc.nCol, acc.rows, e, r)
  {
    var nEq := acc.StatGetCounts(GetNEq, r);
    var nLt := acc.StatGetCounts(GetNLt, r);
    var nDLt := acc.StatGetCounts(GetNDLt, r);
    e := Entry(rowid, nEq, nLt, nDLt);
  }

  /** The entries read so far describe the first samples. */
  ghost predicate EntriesOf(nCol: nat, rows: seq<Row>, a: seq<Sample>, entries: seq<Entry>)
    requires IsIndex(nCol, rows)
  {
    && |entries| <= |a|
    && forall k | 0 <= k < |entries| :: Exact(nCol, rows, a[k]) && Describes(nCol, rows, entries[k], RowOf(a[k]))
  }

  /** The entries of the samples from the current one on. */
  method ReadRemaining(acc: Stat4Accum, rowid0: Rowid) returns (entries: seq<Entry>)
    requires acc.Reporting() && acc.iGet == 0 < |acc.a|
    requires Exact(acc.nCol, acc.rows, acc.a[0]) && rowid0 == acc.rows[RowOf(acc.a[0])].rowid
    modifies acc`iGet
    ensures EntriesOf(acc.nCol, acc.rows, acc.a, entries) && |entries| == |acc.a|
  {
    entries := [];
    var found, rowid := true, rowid0;
    while found
      invariant 0 <= acc.iGet == |entries|
      invariant EntriesOf(acc.nCol, acc.rows, acc.a, entries)
      invariant found <==> acc.iGet < |acc.a|
      invariant found ==> Exact(acc.nCol, acc.rows, acc.a[acc.iGet])
      invariant found ==> rowid == acc.rows[RowOf(acc.a[acc.iGet])].rowid
      decreases |acc.a| - acc.iGet
    {
      var e := ReadEntry(acc, rowid, RowOf(acc.a[acc.iGet]));
      entries := entries + [e];
      found, rowid := acc.CurrentRowid();
    }
  }

  /** All samples, in array order. */
  method ReadEntries(acc: Stat4Accum) returns (entries: seq<Entry>)
    requires acc.Scanning() && |acc.rows| > 0
    modifies acc
    ensures acc.Flushed() && acc.rows == old(acc.rows)
    ensures EntriesOf(acc.nCol, acc.rows, acc.a, entries) && |entries| == |acc.a|
  {
    var found, rowid := acc.StatGetRowid();
    entries := [];
    if found {
      entries := ReadRemaining(acc, rowid);
    }
  }

  /** What the accumulator says about the whole index after the final flush. */
  lemma FlushedSamples(acc: Stat4Accum) returns (at: seq<nat>, cols: seq<nat>)
    requires acc.Flushed()
    ensures InOrder(acc.rows, at) && |at| == |acc.a| <= acc.mxSample
    ensures forall k | 0 <= k < |at| :: |acc.a[k].anLt| > 0 && at[k] == RowOf(acc.a[k])
    ensures EvenlySpacedSampled(acc.rows, acc.nPSample, at)
    ensures LargestGroupsSampled(acc.nCol, acc.rows, acc.nPSample, acc.mxSample, at, cols)
    ensures DistinctGroups(acc.nCol, acc.rows, acc.nPSample, at, cols)
    ensures RowsChosen(acc.nCol, acc.rows, acc.h, acc.nPSample, at, cols)
    ensures PreferredGroupsSampled(acc.nCol, acc.rows, acc.h, acc.nPSample, acc.mxSample, at, cols)
  {
    assert forall k | 0 <= k < |acc.a| :: SampleOk(acc.nCol, acc.rows, acc.nPSample, acc.a[k], -1);
    at, cols := RowsOf(acc.nCol, acc.a), ColsOf(acc.nCol, acc.a);
    CollectedSamples(acc.nCol, acc.rows, acc.nPSample, acc.mxSample, acc.a, acc.iMin, at, cols);
    SelectedSamples(acc.nCol, acc.rows, acc.h, acc.nPSample, acc.mxSample, acc.a, at, cols);
  }

  /** ANALYZE of one index: for every sorted list of rows, the stat1 entry holds the exact
      rounded-up averages, every stat4 entry holds exact whole-index counts, the entries are in
      index order without duplicates, and every evenly spaced row is among them.  The other entries
      stand for different groups, and no group without an entry is larger than one of those, or
      preferred to it if they are of the same size.  Each describes a row of its group that was
      chosen by the sizes of the groups inside it. */
  method AnalyzeIndex(nCol: nat, nKeyCol: nat, mx: nat, rows: seq<Row>)
    returns (stat1: string, entries: seq<Entry>, ghost at: seq<nat>, ghost cols: seq<nat>)
    requires 0 < nKeyCol <= nCol && mx > 0 && IsIndex(nCol, rows)
    ensures rows == [] ==> entries == []
    ensures rows != [] ==> stat1 == Printed([|rows|] + EstimateList(nCol, rows, nKeyCol))
    ensures |entries| == |at| <= mx && InOrder(rows, at)
    ensures forall k | 0 <= k < |at| :: Describes(nCol, rows, entries[k], at[k])
    ensures EvenlySpacedSampled(rows, Spacing(|rows|, mx), at)
    ensures LargestGroupsSampled(nCol, rows, Spacing(|rows|, mx), mx, at, cols)
    ensures DistinctGroups(nCol, rows, Spacing(|rows|, mx), at, cols)
    ensures RowsChosen(nCol, rows, NumbersFrom(Seed(nCol, |rows|)), Spacing(|rows|, mx), at, cols)
    ensures PreferredGroupsSampled(nCol, rows, NumbersFrom(Seed(nCol, |rows|)), Spacing(|rows|, mx), mx, at, cols)
  {
    stat1, entries, at, cols := "", [], [], [];
    if rows == [] { return; }
    var acc := new Stat4Accum(nCol, nKeyCol, |rows|, mx);
    Scan(acc, rows);
    stat1 := acc.StatGetStat1();
    entries := ReadEntries(acc);
    at, cols := FlushedSamples(acc);
  }
}
