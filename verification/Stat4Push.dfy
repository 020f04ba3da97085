/** Filling in the counts of closed groups, and moving the scan on to the next row. */
module Stat4Push {
  import opened IndexRows
  import opened Samples
  import opened Arith
  import opened Stat4Invariant
  import opened Stat4Collection
  import opened Stat4Closing

  // ---- filling in the closed groups ----

  function Filled(nCol: nat, cur: Sample, s: Sample, d: nat): (f: Sample)
    requires Shaped(nCol, cur) && Shaped(nCol, s)
    ensures Shaped(nCol, f) && f == s.(anEq := f.anEq)
    ensures forall j | 0 <= j < nCol ::
              f.anEq[j] == if d <= j && s.anEq[j] == 0 then cur.anEq[j] else s.anEq[j]
  {
    s.(anEq := seq(nCol, j requires 0 <= j < nCol =>
                     if d <= j && s.anEq[j] == 0 then cur.anEq[j] else s.anEq[j]))
  }

  function FilledAll(nCol: nat, cur: Sample, a: seq<Sample>, d: nat): (b: seq<Sample>)
    requires Shaped(nCol, cur) && forall k | 0 <= k < |a| :: Shaped(nCol, a[k])
    ensures |b| == |a| && forall k | 0 <= k < |a| :: b[k] == Filled(nCol, cur, a[k], d)
  {
    seq(|a|, k requires 0 <= k < |a| => Filled(nCol, cur, a[k], d))
  }

  /** After filling, the counts from column d on are final and the rest is as before. */
  lemma FilledOk(nCol: nat, rows: seq<Row>, period: nat, cur: Sample, s: Sample, d: nat)
    requires IsIndex(nCol, rows) && |rows| > 0 && period > 0
    requires CurrentOk(nCol, rows, cur) && SampleOk(nCol, rows, period, s, d - 1)
    ensures SampleOk(nCol, rows, period, Filled(nCol, cur, s, d), d - 1)
    ensures ValidFrom(nCol, rows, Filled(nCol, cur, s, d), d)
    ensures !s.isPSample ==> SameRank(nCol, s, Filled(nCol, cur, s, d))
  {
    var f, lo, r := Filled(nCol, cur, s, d), d - 1, RowOf(s);
    forall j | 0 <= j < nCol
      ensures CountOk(nCol, rows, f, lo, j)
      ensures d <= j ==> f.anEq[j] == NEq(nCol, rows, r, j)
      ensures !s.isPSample && s.iCol <= j ==> f.anEq[j] == s.anEq[j]
    {
      assert CountOk(nCol, rows, s, lo, j);
      NEqPositive(nCol, rows, r, j);
      if Open(nCol, rows, r, j) {
        NEqOfGroup(nCol, rows, r, |rows| - 1, j);
      }
    }
  }

  /** Entries keep their row, their kind and their rank. */
  ghost predicate SameEntries(nCol: nat, a: seq<Sample>, b: seq<Sample>) {
    && |a| == |b| && AllRanked(nCol, a) && AllRanked(nCol, b)
    && (forall k | 0 <= k < |a| ::
          RowOf(b[k]) == RowOf(a[k]) && b[k].isPSample == a[k].isPSample && b[k].iCol == a[k].iCol)
    && (forall k | 0 <= k < |a| && !a[k].isPSample :: SameRank(nCol, a[k], b[k]))
  }

  lemma FilledAllOk(nCol: nat, rows: seq<Row>, period: nat, cur: Sample, a: seq<Sample>, d: nat, b: seq<Sample>)
    requires IsIndex(nCol, rows) && |rows| > 0 && period > 0
    requires CurrentOk(nCol, rows, cur) && AllOk(nCol, rows, period, a, d - 1)
    requires b == FilledAll(nCol, cur, a, d)
    ensures AllOk(nCol, rows, period, b, d - 1)
    ensures forall k | 0 <= k < |b| :: ValidFrom(nCol, rows, b[k], d)
    ensures SameEntries(nCol, a, b)
  {
    var lo := d - 1;
    forall k | 0 <= k < |b|
      ensures SampleOk(nCol, rows, period, b[k], lo) && ValidFrom(nCol, rows, b[k], d)
      ensures !a[k].isPSample ==> SameRank(nCol, a[k], b[k])
    {
      FilledOk(nCol, rows, period, cur, a[k], d);
    }
  }

  lemma SameEntriesMinimum(nCol: nat, a: seq<Sample>, b: seq<Sample>, m: nat)
    requires SameEntries(nCol, a, b) && IsMinimum(nCol, a, m)
    ensures IsMinimum(nCol, b, m)
  {
    forall k | 0 <= k < |b| && !b[k].isPSample
      ensures !Better(nCol, b[m], b[k])
    {
      BetterDepends(nCol, a[m], a[k], b[m], b[k]);
    }
  }

  lemma SameEntriesPeriodicKept(nCol: nat, period: nat, a: seq<Sample>, b: seq<Sample>, n: nat)
    requires period > 0 && SameEntries(nCol, a, b)
    requires PeriodicKept(nCol, period, a, n)
    ensures PeriodicKept(nCol, period, b, n)
  {
  }

  lemma FillKeeps(
      nCol: nat, rows: seq<Row>, period: nat, mx: nat, cur: Sample, a: seq<Sample>, iMin: nat, d: nat,
      b: seq<Sample>)
    requires IsIndex(nCol, rows) && |rows| > 0 && period > 0
    requires CurrentOk(nCol, rows, cur) && Collected(nCol, rows, period, mx, a, iMin, d - 1)
    requires b == FilledAll(nCol, cur, a, d)
    ensures Collected(nCol, rows, period, mx, b, iMin, d - 1)
    ensures forall k | 0 <= k < |b| :: ValidFrom(nCol, rows, b[k], d)
  {
    FilledAllOk(nCol, rows, period, cur, a, d, b);
    FillKeepsRest(nCol, rows, period, mx, a, iMin, d - 1, b);
  }

  lemma FillKeepsRest(
      nCol: nat, rows: seq<Row>, period: nat, mx: nat, a: seq<Sample>, iMin: nat, lo: int, b: seq<Sample>)
    requires IsIndex(nCol, rows) && |rows| > 0 && period > 0
    requires Collected(nCol, rows, period, mx, a, iMin, lo)
    requires SameEntries(nCol, a, b) && AllOk(nCol, rows, period, b, lo)
    ensures Collected(nCol, rows, period, mx, b, iMin, lo)
  {
    if |a| == mx {
      SameEntriesMinimum(nCol, a, b, iMin);
    }
    FillKeepsServed(nCol, rows, mx, a, b, lo);
    SameEntriesApart(nCol, rows, a, b);
    SameEntriesPeriodicKept(nCol, period, a, b, |rows|);
  }

  lemma SameEntriesApart(nCol: nat, rows: seq<Row>, a: seq<Sample>, b: seq<Sample>)
    requires IsIndex(nCol, rows) && SameEntries(nCol, a, b) && Placed(nCol, rows, a) && Placed(nCol, rows, b)
    requires StandApart(nCol, rows, a)
    ensures StandApart(nCol, rows, b)
  {
    forall k, l | 0 <= k < |b| && 0 <= l < |b| && k != l && !b[k].isPSample && !b[l].isPSample
      ensures Apart(nCol, rows, b[k], b[l])
    {
      assert Apart(nCol, rows, a[k], a[l]);
    }
  }

  lemma FillKeepsServed(nCol: nat, rows: seq<Row>, mx: nat, a: seq<Sample>, b: seq<Sample>, lo: int)
    requires IsIndex(nCol, rows)
    requires SameEntries(nCol, a, b) && Placed(nCol, rows, a) && Placed(nCol, rows, b)
    requires AllServed(nCol, rows, mx, a, lo)
    ensures AllServed(nCol, rows, mx, b, lo)
  {
  }

  // ---- the next row ----

  lemma LocatedAfterPush(nCol: nat, rows: seq<Row>, row: Row, s: Sample)
    requires Extends(nCol, rows, row) && Located(nCol, rows, s)
    ensures Located(nCol, rows + [row], s)
  {
    var rows' := rows + [row];
    forall j | 0 <= j < nCol
      ensures s.anLt[j] == NLt(nCol, rows', RowOf(s), j)
      ensures s.anDLt[j] == NDLt(nCol, rows', RowOf(s), j)
    {
      OldRowCounts(nCol, rows, row, RowOf(s), j);
    }
  }

  /** A group is open after the push if it was open before and lies left of the changed column. */
  lemma OpenAfterPush(nCol: nat, rows: seq<Row>, row: Row, r: nat, j: nat)
    requires Extends(nCol, rows, row) && r < |rows| && j < nCol
    ensures Open(nCol, rows + [row], r, j) <==>
            j < Diff(rows[|rows| - 1].key, row.key) && Open(nCol, rows, r, j)
    ensures !Open(nCol, rows + [row], r, j) ==> NEq(nCol, rows + [row], r, j) == NEq(nCol, rows, r, j)
  {
    var rows' := rows + [row];
    NewRowGroup(nCol, rows, row, r, j);
    OldRowCounts(nCol, rows, row, r, j);
    if j == nCol - 1 && SameGroup(nCol, rows', r, |rows|, j) {
      WholeKeyIsUnique(nCol, rows', r, |rows|);
      assert false;
    }
  }

  lemma SampleAfterPush(nCol: nat, rows: seq<Row>, row: Row, period: nat, s: Sample, d: nat)
    requires Extends(nCol, rows, row) && period > 0
    requires d == Diff(rows[|rows| - 1].key, row.key)
    requires SampleOk(nCol, rows, period, s, d - 1) && ValidFrom(nCol, rows, s, d)
    ensures SampleOk(nCol, rows + [row], period, s, nCol - 2)
  {
    var rows', r, lo := rows + [row], RowOf(s), nCol - 2;
    LocatedAfterPush(nCol, rows, row, s);
    forall j | 0 <= j < nCol
      ensures CountOk(nCol, rows', s, lo, j)
      ensures !s.isPSample && s.iCol <= j ==> s.anEq[j] == NEq(nCol, rows', r, j)
    {
      assert CountOk(nCol, rows, s, d - 1, j);
      OpenAfterPush(nCol, rows, row, r, j);
      NEqPositive(nCol, rows, r, j);
    }
  }

  lemma ServedAfterPush(nCol: nat, rows: seq<Row>, row: Row, mx: nat, a: seq<Sample>, r: nat, j: nat)
    requires Extends(nCol, rows, row) && Placed(nCol, rows, a) && r < |rows| && j < nCol
    requires !Open(nCol, rows + [row], r, j) && Served(nCol, rows, mx, a, r, j)
    ensures Placed(nCol, rows + [row], a) && Served(nCol, rows + [row], mx, a, r, j)
  {
    var rows' := rows + [row];
    OpenAfterPush(nCol, rows, row, r, j);
    if Represented(nCol, rows, a, r, j) {
      var k: nat :| k < |a| && Represents(nCol, rows, a[k], r, j);
      assert Represents(nCol, rows', a[k], r, j);
    }
  }

  lemma AllServedAfterPush(nCol: nat, rows: seq<Row>, row: Row, mx: nat, a: seq<Sample>, d: nat)
    requires Extends(nCol, rows, row) && Placed(nCol, rows, a)
    requires d == Diff(rows[|rows| - 1].key, row.key)
    requires AllServed(nCol, rows, mx, a, d - 1)
    ensures Placed(nCol, rows + [row], a) && AllServed(nCol, rows + [row], mx, a, nCol - 2)
  {
    var rows', n, lo := rows + [row], |rows|, nCol - 2;
    forall r: nat, j: nat | r < |rows'| && j < nCol && Closed(nCol, rows', lo, r, j)
      ensures Served(nCol, rows', mx, a, r, j)
    {
      if r < n {
        OpenAfterPush(nCol, rows, row, r, j);
        assert Closed(nCol, rows, d - 1, r, j);
        ServedAfterPush(nCol, rows, row, mx, a, r, j);
      }
    }
  }

  /** The sample array when a new row has arrived but is not itself considered yet. */
  ghost predicate ArrivedAt(nCol: nat, rows: seq<Row>, period: nat, mx: nat, a: seq<Sample>, iMin: nat)
    requires IsIndex(nCol, rows) && |rows| > 0 && period > 0
  {
    && AllOk(nCol, rows, period, a, nCol - 2)
    && |a| <= mx
    && Ordered(nCol, a)
    && (|a| == mx ==> IsMinimum(nCol, a, iMin))
    && (forall k | 0 <= k < |a| :: RowOf(a[k]) < |rows| - 1)
    && PeriodicKept(nCol, period, a, |rows| - 1)
    && AllServed(nCol, rows, mx, a, nCol - 2)
    && StandApart(nCol, rows, a)
  }

  lemma AllOkAfterPush(nCol: nat, rows: seq<Row>, row: Row, period: nat, a: seq<Sample>, d: nat)
    requires Extends(nCol, rows, row) && period > 0
    requires d == Diff(rows[|rows| - 1].key, row.key)
    requires AllOk(nCol, rows, period, a, d - 1)
    requires forall k | 0 <= k < |a| :: ValidFrom(nCol, rows, a[k], d)
    ensures AllOk(nCol, rows + [row], period, a, nCol - 2)
  {
    var lo := nCol - 2;
    forall k | 0 <= k < |a|
      ensures SampleOk(nCol, rows + [row], period, a[k], lo)
    {
      SampleAfterPush(nCol, rows, row, period, a[k], d);
    }
  }

  lemma ApartAfterPush(nCol: nat, rows: seq<Row>, row: Row, a: seq<Sample>)
    requires Extends(nCol, rows, row) && Placed(nCol, rows, a) && StandApart(nCol, rows, a)
    ensures Placed(nCol, rows + [row], a) && StandApart(nCol, rows + [row], a)
  {
    forall k, l | 0 <= k < |a| && 0 <= l < |a| && k != l && !a[k].isPSample && !a[l].isPSample
      ensures Apart(nCol, rows + [row], a[k], a[l])
    {
      assert Apart(nCol, rows, a[k], a[l]);
    }
  }

  lemma PushKeeps(nCol: nat, rows: seq<Row>, row: Row, period: nat, mx: nat, a: seq<Sample>, iMin: nat, d: nat)
    requires Extends(nCol, rows, row) && period > 0
    requires d == Diff(rows[|rows| - 1].key, row.key)
    requires Collected(nCol, rows, period, mx, a, iMin, d - 1)
    requires forall k | 0 <= k < |a| :: ValidFrom(nCol, rows, a[k], d)
    ensures ArrivedAt(nCol, rows + [row], period, mx, a, iMin)
  {
    AllOkAfterPush(nCol, rows, row, period, a, d);
    AllServedAfterPush(nCol, rows, row, mx, a, d);
    ApartAfterPush(nCol, rows, row, a);
  }

  // ---- the best candidates ----

  /** A new group's first candidate is the current row. */
  lemma BestStarts(nCol: nat, rows: seq<Row>, cur: Sample, i: nat)
    requires IsIndex(nCol, rows) && |rows| > 0 && i < nCol - 1
    requires CurrentOk(nCol, rows, cur)
    ensures BestOk(nCol, rows, cur.(iCol := i), i)
  {
  }

  /** The new row's group is larger than it was for the rows before. */
  lemma GroupGrows(nCol: nat, rows: seq<Row>, row: Row, b: nat, j: nat)
    requires Extends(nCol, rows, row) && b < |rows| && j < nCol
    requires SameGroup(nCol, rows + [row], b, |rows|, j)
    ensures NEq(nCol, rows + [row], |rows|, j) > NEq(nCol, rows, b, j)
  {
    NewRowGroup(nCol, rows, row, b, j);
    NewRowContinues(nCol, rows, row, j);
    NEqOfGroup(nCol, rows, b, |rows| - 1, j);
  }

  /** A new row that continues the candidate's group in column i + 1 beats it. */
  lemma NewRowIsBetter(nCol: nat, rows: seq<Row>, row: Row, cur: Sample, best: Sample, i: nat)
    requires Extends(nCol, rows, row) && i < nCol - 1
    requires Ranked(nCol, best) && RowOf(best) < |rows| && Shaped(nCol, cur)
    requires best.anEq[i + 1] == NEq(nCol, rows, RowOf(best), i + 1)
    requires cur.anEq[i + 1] == NEq(nCol, rows + [row], |rows|, i + 1)
    requires SameGroup(nCol, rows + [row], RowOf(best), |rows|, i + 1)
    ensures BetterPost(nCol, cur.(iCol := i), best)
  {
    GroupGrows(nCol, rows, row, RowOf(best), i + 1);
  }

  /** Counts of groups that the new row does not join stay final. */
  lemma StaysFinal(nCol: nat, rows: seq<Row>, row: Row, s: Sample, i: nat)
    requires Extends(nCol, rows, row) && i < nCol && Shaped(nCol, s) && RowOf(s) < |rows|
    requires ValidFrom(nCol, rows, s, i) && !SameGroup(nCol, rows + [row], RowOf(s), |rows|, i)
    ensures ValidFrom(nCol, rows + [row], s, i)
  {
    forall j | i <= j < nCol
      ensures s.anEq[j] == NEq(nCol, rows + [row], RowOf(s), j)
    {
      ApartDeeper(nCol, rows + [row], RowOf(s), |rows|, i, j);
      OldRowCounts(nCol, rows, row, RowOf(s), j);
    }
  }

  /** A candidate that survives the comparison with the new row is the last row of its
      group in column i + 1, so its deeper counts cannot grow any more. */
  lemma BestSurvives(nCol: nat, rows: seq<Row>, row: Row, cur: Sample, best: Sample, i: nat)
    requires Extends(nCol, rows, row) && i < nCol - 1
    requires i < Diff(rows[|rows| - 1].key, row.key)
    requires BestOk(nCol, rows, best, i)
    requires CurrentOk(nCol, rows + [row], cur)
    requires !BetterPost(nCol, cur.(iCol := i), best)
    ensures BestOk(nCol, rows + [row], best, i)
  {
    if SameGroup(nCol, rows + [row], RowOf(best), |rows|, i + 1) {
      NewRowIsBetter(nCol, rows, row, cur, best, i);
      assert false;
    }
    LocatedAfterPush(nCol, rows, row, best);
    NewRowGroup(nCol, rows, row, RowOf(best), i);
    StaysFinal(nCol, rows, row, best, i + 1);
  }

  // ---- the periodic sample of the new row ----

  lemma PeriodicInsertedOk(nCol: nat, rows: seq<Row>, period: nat, cur: Sample, s: Sample)
    requires IsIndex(nCol, rows) && |rows| > 0 && period > 0
    requires CurrentOk(nCol, rows, cur) && IsPeriodic(period, RowOf(cur))
    requires s == Zeroed(cur.(isPSample := true, iCol := 0), nCol - 1)
    ensures SampleOk(nCol, rows, period, s, nCol - 2)
  {
  }

  /** The current row turned into a periodic sample, and back. */
  lemma PeriodicCandidate(nCol: nat, rows: seq<Row>, period: nat, cur: Sample, c: Sample, s: Sample)
    requires IsIndex(nCol, rows) && |rows| > 0 && period > 0
    requires CurrentOk(nCol, rows, cur) && IsPeriodic(period, RowOf(cur))
    requires c == cur.(isPSample := true, iCol := 0) && s == Zeroed(c, nCol - 1)
    ensures Ranked(nCol, c) && SampleOk(nCol, rows, period, s, nCol - 2) && RowOf(s) == |rows| - 1
    ensures CurrentOk(nCol, rows, c.(isPSample := false))
  {
    PeriodicInsertedOk(nCol, rows, period, cur, s);
    CurrentForColumn(nCol, rows, cur, 0);
    assert c.(isPSample := false) == cur.(iCol := 0);
  }

  lemma SpacingTest(period: nat, r: nat)
    requires period > 0
    ensures r / period != (r + 1) / period <==> IsPeriodic(period, r)
  {
    var q := r / period;
    assert r == period * q + r % period;
    if r % period + 1 == period {
      assert r + 1 == period * (q + 1) by { assert period * (q + 1) == period * q + period; }
      QuotientUnique(r + 1, period, q + 1, 0);
    } else {
      QuotientUnique(r + 1, period, q, r % period + 1);
    }
  }

  /** There is always room for the new row's periodic sample. */
  lemma {:induction false} PeriodicFits(
      nCol: nat, rows: seq<Row>, total: nat, mx: nat, a: seq<Sample>, s: Sample, lo: int)
    requires IsIndex(nCol, rows) && |rows| <= total
    requires AllOk(nCol, rows, Spacing(total, mx), a, lo) && Ordered(nCol, a)
    requires SampleOk(nCol, rows, Spacing(total, mx), s, lo) && s.isPSample
    requires forall k | 0 <= k < |a| :: RowOf(a[k]) < RowOf(s)
    ensures PeriodicCount(a) + 1 <= mx / 3
  {
    PeriodicSamplesBounded(nCol, rows, total, mx, a + [s], lo);
    PeriodicCountAppend(a, [s]);
    assert [s][..0] == [];
  }

  // ---- the running counts ----

  /** The counts of the current row, brought forward to the next one. */
  ghost predicate Advanced(nCol: nat, cur: Sample, cur': Sample, d: nat) {
    && Shaped(nCol, cur) && Shaped(nCol, cur')
    && (forall j | 0 <= j < nCol && j < d ::
          cur'.anEq[j] == cur.anEq[j] + 1 && cur'.anLt[j] == cur.anLt[j] && cur'.anDLt[j] == cur.anDLt[j])
    && (forall j | d <= j < nCol ::
          cur'.anEq[j] == 1 && cur'.anLt[j] == cur.anLt[j] + cur.anEq[j] && cur'.anDLt[j] == cur.anDLt[j] + 1)
  }

  lemma AdvancedColumn(nCol: nat, rows: seq<Row>, row: Row, cur: Sample, cur': Sample, d: nat, j: nat)
    requires Extends(nCol, rows, row) && d == Diff(rows[|rows| - 1].key, row.key)
    requires CurrentOk(nCol, rows, cur) && Advanced(nCol, cur, cur', d) && j < nCol
    ensures cur'.anEq[j] == NEq(nCol, rows + [row], |rows|, j)
    ensures cur'.anLt[j] == NLt(nCol, rows + [row], |rows|, j)
    ensures cur'.anDLt[j] == NDLt(nCol, rows + [row], |rows|, j)
  {
    if j < d {
      NewRowContinues(nCol, rows, row, j);
    } else {
      NewRowStarts(nCol, rows, row, j);
      LastRowTotals(nCol, rows, j);
    }
  }

  lemma AdvancedOk(nCol: nat, rows: seq<Row>, row: Row, cur: Sample, cur': Sample, d: nat)
    requires Extends(nCol, rows, row) && d == Diff(rows[|rows| - 1].key, row.key)
    requires CurrentOk(nCol, rows, cur) && Advanced(nCol, cur, cur', d)
    requires cur'.rowid == row.rowid && !cur'.isPSample
    ensures CurrentOk(nCol, rows + [row], cur')
  {
    var rows', n := rows + [row], |rows|;
    AdvancedColumn(nCol, rows, row, cur, cur', d, nCol - 1);
    RowIndexIsNLt(nCol, rows', n);
    forall j: nat | j < nCol
      ensures cur'.anEq[j] == NEq(nCol, rows', n, j)
      ensures cur'.anLt[j] == NLt(nCol, rows', n, j)
      ensures cur'.anDLt[j] == NDLt(nCol, rows', n, j)
    {
      AdvancedColumn(nCol, rows, row, cur, cur', d, j);
    }
  }

  lemma CurrentWithNumber(nCol: nat, rows: seq<Row>, cur: Sample, n: nat)
    requires IsIndex(nCol, rows) && |rows| > 0 && CurrentOk(nCol, rows, cur)
    ensures CurrentOk(nCol, rows, cur.(iHash := n))
  {
  }

  lemma FirstRowCounts(nCol: nat, rows: seq<Row>, j: nat)
    requires IsIndex(nCol, rows) && |rows| == 1 && j < nCol
    ensures NEq(nCol, rows, 0, j) == 1 && NLt(nCol, rows, 0, j) == 0 && NDLt(nCol, rows, 0, j) == 0
  {
    LexLessAsymmetric(Prefix(rows, 0, j), Prefix(rows, 0, j));
    assert EqSet(nCol, rows, 0, j) == {0};
    assert LtSet(nCol, rows, 0, j) == {};
    assert LtPrefixes(nCol, rows, 0, j) == {};
  }

  lemma FirstRowOk(nCol: nat, rows: seq<Row>, cur: Sample)
    requires IsIndex(nCol, rows) && |rows| == 1
    requires Shaped(nCol, cur) && !cur.isPSample && cur.rowid == rows[0].rowid
    requires forall j | 0 <= j < nCol :: cur.anEq[j] == 1 && cur.anLt[j] == 0 && cur.anDLt[j] == 0
    ensures CurrentOk(nCol, rows, cur)
  {
    forall j: nat | j < nCol
      ensures cur.anEq[j] == NEq(nCol, rows, 0, j)
      ensures cur.anLt[j] == NLt(nCol, rows, 0, j)
      ensures cur.anDLt[j] == NDLt(nCol, rows, 0, j)
    {
      FirstRowCounts(nCol, rows, j);
    }
  }

  /** The array after the new row's periodic sample has been appended. */
  lemma PeriodicTaken(
      nCol: nat, rows: seq<Row>, period: nat, mx: nat, a0: seq<Sample>, min0: nat, s: Sample, a: seq<Sample>,
      iMin: nat)
    requires IsIndex(nCol, rows) && |rows| > 0 && period > 0 && mx > 0
    requires ArrivedAt(nCol, rows, period, mx, a0, min0)
    requires SampleOk(nCol, rows, period, s, nCol - 2) && s.isPSample && RowOf(s) == |rows| - 1
    requires a == WithRoom(a0, mx, min0) + [s]
    requires AllRanked(nCol, a) && (|a| == mx ==> IsMinimum(nCol, a, iMin))
    ensures Collected(nCol, rows, period, mx, a, iMin, nCol - 2)
  {
    var lo, b := nCol - 2, WithRoom(a0, mx, min0);
    InsertKeepsPlaced(nCol, rows, mx, a0, min0, s);
    InsertKeepsOk(nCol, rows, period, mx, a0, min0, b, s, lo);
    InsertKeepsAllServed(nCol, rows, period, mx, a0, min0, b, s, lo);
    InsertKeepsAllPeriodic(nCol, rows, period, mx, a0, min0, b, s, lo, |rows|);
    WithRoomKeepsApart(nCol, rows, mx, a0, min0, b);
    AppendKeepsApart(nCol, rows, b, s, a);
  }

  lemma NotPeriodicTaken(nCol: nat, rows: seq<Row>, period: nat, mx: nat, a: seq<Sample>, iMin: nat)
    requires IsIndex(nCol, rows) && |rows| > 0 && period > 0
    requires ArrivedAt(nCol, rows, period, mx, a, iMin) && !IsPeriodic(period, |rows| - 1)
    ensures Collected(nCol, rows, period, mx, a, iMin, nCol - 2)
  {
  }
}
