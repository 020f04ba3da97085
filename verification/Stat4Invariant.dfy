/** What is true of the collected samples between and during pushes.

    A sample's anEq[j] is zero while the group of its prefix through column j is
    still open, that is, while the scan is still inside it.  While the groups of
    the columns from iChng on are being closed, from the last column back, column
    `lo` is the next one to close: entries to its right may already be filled. */
module Stat4Invariant {
  import opened IndexRows
  import opened Samples

  /** Row r belongs to the group of column j that the last scanned row is in.
      The last column never has an open group, because full keys are unique. */
  ghost predicate Open(nCol: nat, rows: seq<Row>, r: nat, j: nat)
    requires IsIndex(nCol, rows) && r < |rows| && j < nCol
  {
    j < nCol - 1 && SameGroup(nCol, rows, r, |rows| - 1, j)
  }

  /** The sample describes one scanned row, and says correctly where it is. */
  ghost predicate Located(nCol: nat, rows: seq<Row>, s: Sample)
    requires IsIndex(nCol, rows)
  {
    && Shaped(nCol, s)
    && RowOf(s) < |rows|
    && s.rowid == rows[RowOf(s)].rowid
    && (forall j | 0 <= j < nCol :: s.anLt[j] == NLt(nCol, rows, RowOf(s), j))
    && (forall j | 0 <= j < nCol :: s.anDLt[j] == NDLt(nCol, rows, RowOf(s), j))
  }

  ghost predicate CountOk(nCol: nat, rows: seq<Row>, s: Sample, lo: int, j: nat)
    requires IsIndex(nCol, rows) && Shaped(nCol, s) && RowOf(s) < |rows| && j < nCol
  {
    var full := s.anEq[j] == NEq(nCol, rows, RowOf(s), j);
    if !Open(nCol, rows, RowOf(s), j) then full
    else if j <= lo then s.anEq[j] == 0
    else s.anEq[j] == 0 || full
  }

  /** The counts from column i on are the final ones. */
  ghost predicate ValidFrom(nCol: nat, rows: seq<Row>, s: Sample, i: nat)
    requires IsIndex(nCol, rows) && Shaped(nCol, s) && RowOf(s) < |rows|
  {
    forall j | i <= j < nCol :: s.anEq[j] == NEq(nCol, rows, RowOf(s), j)
  }

  /** Every count of the sample is the whole-index count of its row. */
  ghost predicate Exact(nCol: nat, rows: seq<Row>, s: Sample)
    requires IsIndex(nCol, rows)
  {
    Located(nCol, rows, s) && ValidFrom(nCol, rows, s, 0)
  }

  ghost predicate AllExact(nCol: nat, rows: seq<Row>, a: seq<Sample>)
    requires IsIndex(nCol, rows)
  {
    forall k | 0 <= k < |a| :: Exact(nCol, rows, a[k])
  }

  ghost predicate SampleOk(nCol: nat, rows: seq<Row>, period: nat, s: Sample, lo: int)
    requires IsIndex(nCol, rows) && period > 0
  {
    && Ranked(nCol, s)
    && Located(nCol, rows, s)
    && (forall j | 0 <= j < nCol :: CountOk(nCol, rows, s, lo, j))
    && (s.isPSample <==> IsPeriodic(period, RowOf(s)))
    && (!s.isPSample ==> s.iCol < nCol - 1 && ValidFrom(nCol, rows, s, s.iCol))
  }

  /** Row r is one of the evenly spaced rows that are always sampled. */
  predicate IsPeriodic(period: nat, r: nat)
    requires period > 0
  {
    (r + 1) % period == 0
  }

  ghost predicate AllOk(nCol: nat, rows: seq<Row>, period: nat, a: seq<Sample>, lo: int)
    requires IsIndex(nCol, rows) && period > 0
  {
    forall k | 0 <= k < |a| :: SampleOk(nCol, rows, period, a[k], lo)
  }

  /** The sample of the last scanned row. */
  ghost predicate CurrentOk(nCol: nat, rows: seq<Row>, cur: Sample)
    requires IsIndex(nCol, rows) && |rows| > 0
  {
    && Located(nCol, rows, cur) && RowOf(cur) == |rows| - 1
    && !cur.isPSample
    && ValidFrom(nCol, rows, cur, 0)
  }

  /** The best candidate for column i lies in the open group of column i, and every
      group of it to the right of column i has the count it will end up with. */
  ghost predicate BestOk(nCol: nat, rows: seq<Row>, s: Sample, i: nat)
    requires IsIndex(nCol, rows) && |rows| > 0
  {
    && Ranked(nCol, s) && Located(nCol, rows, s)
    && !s.isPSample && s.iCol == i && i < nCol - 1
    && SameGroup(nCol, rows, RowOf(s), |rows| - 1, i)
    && ValidFrom(nCol, rows, s, i + 1)
    && (RowOf(s) == |rows| - 1 || !SameGroup(nCol, rows, RowOf(s), |rows| - 1, i + 1))
  }

  // ---- single samples ----

  lemma OpenShorter(nCol: nat, rows: seq<Row>, r: nat, i: nat, j: nat)
    requires IsIndex(nCol, rows) && r < |rows| && i <= j < nCol
    requires Open(nCol, rows, r, j)
    ensures Open(nCol, rows, r, i)
  {
  }

  /** An open group shows as a zero, and a zero in the column being closed means open. */
  lemma ZeroMeansOpen(nCol: nat, rows: seq<Row>, period: nat, s: Sample, i: nat)
    requires IsIndex(nCol, rows) && period > 0 && i < nCol
    requires SampleOk(nCol, rows, period, s, i)
    ensures s.anEq[i] == 0 <==> Open(nCol, rows, RowOf(s), i)
  {
    assert CountOk(nCol, rows, s, i, i);
    NEqPositive(nCol, rows, RowOf(s), i);
  }

  /** A non-periodic sample whose group in column i is open stands for a longer prefix. */
  lemma OpenSampleIsDeeper(nCol: nat, rows: seq<Row>, period: nat, s: Sample, i: nat)
    requires IsIndex(nCol, rows) && period > 0 && i < nCol
    requires SampleOk(nCol, rows, period, s, i) && !s.isPSample
    requires s.anEq[i] == 0
    ensures s.iCol > i
  {
    NEqPositive(nCol, rows, RowOf(s), i);
  }

  /** ... and any sample that stands for the whole open group is preferred to it. */
  lemma ShallowerIsBetter(nCol: nat, rows: seq<Row>, x: Sample, y: Sample, i: nat)
    requires IsIndex(nCol, rows) && Ranked(nCol, x) && Ranked(nCol, y)
    requires RowOf(x) < |rows| && RowOf(y) < |rows|
    requires x.iCol <= i < y.iCol && SameGroup(nCol, rows, RowOf(x), RowOf(y), i)
    requires Score(nCol, x) == NEq(nCol, rows, RowOf(x), x.iCol)
    requires Score(nCol, y) == NEq(nCol, rows, RowOf(y), y.iCol)
    ensures Better(nCol, x, y)
  {
    NEqAntitone(nCol, rows, RowOf(x), x.iCol, i);
    NEqOfGroup(nCol, rows, RowOf(x), RowOf(y), i);
    NEqAntitone(nCol, rows, RowOf(y), i, y.iCol);
  }

  lemma SampleOkLower(nCol: nat, rows: seq<Row>, period: nat, s: Sample, lo: int, lo': int)
    requires IsIndex(nCol, rows) && period > 0 && lo' <= lo
    requires SampleOk(nCol, rows, period, s, lo)
    ensures SampleOk(nCol, rows, period, s, lo')
  {
    forall j | 0 <= j < nCol
      ensures CountOk(nCol, rows, s, lo', j)
    {
      assert CountOk(nCol, rows, s, lo, j);
    }
  }

  /** A candidate with its group just closed: what is offered to the sample array. */
  function Offered(nCol: nat, best: Sample, nEq: nat): (s: Sample)
    requires Ranked(nCol, best)
    ensures Ranked(nCol, s)
  {
    best.(anEq := best.anEq[best.iCol := nEq])
  }

  function Zeroed(s: Sample, n: nat): (z: Sample)
    requires n <= |s.anEq|
    ensures |z.anEq| == |s.anEq| && z == s.(anEq := z.anEq)
    ensures forall j | 0 <= j < |s.anEq| :: z.anEq[j] == if j < n then 0 else s.anEq[j]
  {
    s.(anEq := seq(n, _ => 0) + s.anEq[n..])
  }

  /** The first entry of an existing sample's group: it now stands for column i. */
  function Upgraded(nCol: nat, s: Sample, i: nat, nEq: nat): (u: Sample)
    requires Shaped(nCol, s) && i < nCol
    ensures Ranked(nCol, u)
  {
    s.(iCol := i, anEq := s.anEq[i := nEq])
  }

  /** The sample's position does not depend on its equality counts. */
  lemma LocatedWith(nCol: nat, rows: seq<Row>, s: Sample, anEq: seq<nat>)
    requires IsIndex(nCol, rows) && Located(nCol, rows, s) && |anEq| == nCol
    ensures Located(nCol, rows, s.(anEq := anEq))
  {
  }

  lemma InsertedCount(nCol: nat, rows: seq<Row>, best: Sample, i: nat, s: Sample, j: nat)
    requires IsIndex(nCol, rows) && |rows| > 0 && BestOk(nCol, rows, best, i) && j < nCol
    requires s == Zeroed(Offered(nCol, best, NEq(nCol, rows, |rows| - 1, i)), i)
    ensures CountOk(nCol, rows, s, i - 1, j)
    ensures i <= j ==> s.anEq[j] == NEq(nCol, rows, RowOf(best), j)
  {
    var r := RowOf(best);
    if j < i {
      SameGroupShorter(nCol, rows, r, |rows| - 1, j, i);
    } else if j == i {
      NEqOfGroup(nCol, rows, r, |rows| - 1, i);
    } else {
      assert best.anEq[j] == NEq(nCol, rows, r, j);
    }
  }

  lemma InsertedOk(nCol: nat, rows: seq<Row>, period: nat, best: Sample, i: nat, s: Sample)
    requires IsIndex(nCol, rows) && |rows| > 0 && period > 0
    requires BestOk(nCol, rows, best, i) && !IsPeriodic(period, RowOf(best))
    requires s == Zeroed(Offered(nCol, best, NEq(nCol, rows, |rows| - 1, i)), i)
    ensures SampleOk(nCol, rows, period, s, i - 1)
  {
    var lo := i - 1;
    LocatedWith(nCol, rows, best, s.anEq);
    assert s == best.(anEq := s.anEq);
    forall j: nat | j < nCol
      ensures CountOk(nCol, rows, s, lo, j)
      ensures i <= j ==> s.anEq[j] == NEq(nCol, rows, RowOf(s), j)
    {
      InsertedCount(nCol, rows, best, i, s, j);
    }
  }

  /** The reason a current row is offered for is not part of what it describes. */
  lemma CurrentForColumn(nCol: nat, rows: seq<Row>, cur: Sample, i: nat)
    requires IsIndex(nCol, rows) && |rows| > 0 && CurrentOk(nCol, rows, cur)
    ensures CurrentOk(nCol, rows, cur.(iCol := i))
  {
  }

  lemma UpgradedOk(nCol: nat, rows: seq<Row>, period: nat, s: Sample, i: nat)
    requires IsIndex(nCol, rows) && |rows| > 0 && period > 0 && i < nCol
    requires SampleOk(nCol, rows, period, s, i) && !s.isPSample
    requires Open(nCol, rows, RowOf(s), i)
    requires ValidFrom(nCol, rows, s, i + 1)
    ensures SampleOk(nCol, rows, period, Upgraded(nCol, s, i, NEq(nCol, rows, |rows| - 1, i)), i - 1)
  {
    var u := Upgraded(nCol, s, i, NEq(nCol, rows, |rows| - 1, i));
    var lo := i - 1;
    NEqOfGroup(nCol, rows, RowOf(s), |rows| - 1, i);
    forall j | 0 <= j < nCol
      ensures CountOk(nCol, rows, u, lo, j)
    {
      assert CountOk(nCol, rows, s, i, j);
    }
  }
}
