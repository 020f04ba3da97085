/** Which row of a group is sampled: the last row of the largest group of the next column, with
    ties decided by the later columns and then by the pseudo-random numbers of the rows. */
module Stat4Choice {
  import opened Common
  import opened IndexRows
  import opened Samples
  import opened Stat4Invariant
  import opened Stat4Collection
  import opened Stat4Closing
  import opened Stat4Push

  /** The number that is drawn for each row. */
  type Numbers = nat -> nat

  /** The number that the generator holds after n rows. */
  function Drawn(seed: nat, n: nat): nat {
    if n == 0 then seed else (Drawn(seed, n - 1) * 1103515245 + 12345) % TWO32
  }

  function NumbersFrom(seed: nat): Numbers {
    r => Drawn(seed, r + 1)
  }

  /** No later row is in row r's group of column j. */
  ghost predicate EndsGroup(nCol: nat, rows: seq<Row>, r: nat, j: nat)
    requires IsIndex(nCol, rows) && r < |rows| && j < nCol
  {
    forall m: nat | r < m < |rows| :: !SameGroup(nCol, rows, r, m, j)
  }

  /** The two rows have groups of the same size in the columns from i up to q. */
  ghost predicate AlikeRows(nCol: nat, rows: seq<Row>, r: nat, s: nat, i: nat, q: nat)
    requires IsIndex(nCol, rows) && r < |rows| && s < |rows| && q <= nCol
  {
    forall j | i <= j < q :: NEq(nCol, rows, r, j) == NEq(nCol, rows, s, j)
  }

  /** The first column from i on in which the sizes differ, or nCol if there is none. */
  ghost function FirstDifference(nCol: nat, rows: seq<Row>, r: nat, s: nat, i: nat): (q: nat)
    requires IsIndex(nCol, rows) && r < |rows| && s < |rows| && i <= nCol
    ensures i <= q <= nCol && AlikeRows(nCol, rows, r, s, i, q)
    ensures q < nCol ==> NEq(nCol, rows, r, q) != NEq(nCol, rows, s, q)
    decreases nCol - i
  {
    if i == nCol || NEq(nCol, rows, r, i) != NEq(nCol, rows, s, i) then i
    else FirstDifference(nCol, rows, r, s, i + 1)
  }

  /** From column i on, row r has the larger group where the two first differ, or the larger
      number if they do not. */
  ghost predicate Outranks(nCol: nat, rows: seq<Row>, h: Numbers, r: nat, s: nat, i: nat)
    requires IsIndex(nCol, rows) && r < |rows| && s < |rows| && i <= nCol
  {
    var q := FirstDifference(nCol, rows, r, s, i);
    if q < nCol then NEq(nCol, rows, r, q) > NEq(nCol, rows, s, q) else h(r) > h(s)
  }

  /** Row b is chosen for its group of column i.  Of the rows that end a group of column i + 1
      inside it, b outranks those before it, and none behind it outranks b. */
  ghost predicate Chosen(nCol: nat, rows: seq<Row>, h: Numbers, b: nat, i: nat)
    requires IsIndex(nCol, rows) && b < |rows| && i < nCol - 1
  {
    && EndsGroup(nCol, rows, b, i + 1)
    && forall r: nat | r < |rows| && r != b && Contends(nCol, rows, r, b, i) :: Prevails(nCol, rows, h, b, r, i)
  }

  /** Row b outranks row r, or comes before it and is not outranked by it. */
  ghost predicate Prevails(nCol: nat, rows: seq<Row>, h: Numbers, b: nat, r: nat, i: nat)
    requires IsIndex(nCol, rows) && r < |rows| && b < |rows| && i < nCol - 1
  {
    if r < b then Outranks(nCol, rows, h, b, r, i + 1) else !Outranks(nCol, rows, h, r, b, i + 1)
  }

  ghost predicate Contends(nCol: nat, rows: seq<Row>, r: nat, b: nat, i: nat)
    requires IsIndex(nCol, rows) && r < |rows| && b < |rows| && i < nCol - 1
  {
    SameGroup(nCol, rows, r, b, i) && EndsGroup(nCol, rows, r, i + 1)
  }

  /** Row b lies in a largest group of column i + 1 inside its group of column i. */
  ghost predicate InLargest(nCol: nat, rows: seq<Row>, b: nat, i: nat)
    requires IsIndex(nCol, rows) && b < |rows| && i < nCol - 1
  {
    forall r: nat | r < |rows| && SameGroup(nCol, rows, r, b, i) ::
      NEq(nCol, rows, r, i + 1) <= NEq(nCol, rows, b, i + 1)
  }

  // ---- what being chosen means ----

  /** A group is as large as that of the row which ends it. */
  lemma {:induction false} GroupEnd(nCol: nat, rows: seq<Row>, r: nat, j: nat) returns (e: nat)
    requires IsIndex(nCol, rows) && r < |rows| && j < nCol
    ensures r <= e < |rows| && SameGroup(nCol, rows, r, e, j) && EndsGroup(nCol, rows, e, j)
    decreases |rows| - r
  {
    if m: nat :| r < m < |rows| && SameGroup(nCol, rows, r, m, j) {
      e := GroupEnd(nCol, rows, m, j);
    } else {
      e := r;
    }
  }

  lemma OutranksInFirst(nCol: nat, rows: seq<Row>, h: Numbers, r: nat, s: nat, i: nat)
    requires IsIndex(nCol, rows) && r < |rows| && s < |rows| && i < nCol
    ensures Outranks(nCol, rows, h, r, s, i) ==> NEq(nCol, rows, r, i) >= NEq(nCol, rows, s, i)
    ensures NEq(nCol, rows, r, i) > NEq(nCol, rows, s, i) ==> Outranks(nCol, rows, h, r, s, i)
  {
    assert AlikeRows(nCol, rows, r, s, i, i);
  }

  /** No group of the next column inside the group is larger than that of the chosen row. */
  lemma ChosenIsLargest(nCol: nat, rows: seq<Row>, h: Numbers, b: nat, i: nat)
    requires IsIndex(nCol, rows) && b < |rows| && i < nCol - 1 && Chosen(nCol, rows, h, b, i)
    ensures InLargest(nCol, rows, b, i)
  {
    forall r: nat | r < |rows| && SameGroup(nCol, rows, r, b, i)
      ensures NEq(nCol, rows, r, i + 1) <= NEq(nCol, rows, b, i + 1)
    {
      var e := GroupEnd(nCol, rows, r, i + 1);
      SameGroupShorter(nCol, rows, r, e, i, i + 1);
      NEqOfGroup(nCol, rows, r, e, i + 1);
      assert Contends(nCol, rows, e, b, i);
      OutranksInFirst(nCol, rows, h, b, e, i + 1);
      OutranksInFirst(nCol, rows, h, e, b, i + 1);
    }
  }

  /** Being chosen leaves no choice. */
  lemma ChosenUnique(nCol: nat, rows: seq<Row>, h: Numbers, b: nat, c: nat, i: nat)
    requires IsIndex(nCol, rows) && b < |rows| && c < |rows| && i < nCol - 1 && SameGroup(nCol, rows, b, c, i)
    requires Chosen(nCol, rows, h, b, i) && Chosen(nCol, rows, h, c, i)
    ensures b == c
  {
    assert Contends(nCol, rows, b, c, i) && Contends(nCol, rows, c, b, i);
  }

  // ---- rows as samples ----

  /** The sample that a row makes in column i when its groups are complete. */
  ghost function RowSample(nCol: nat, rows: seq<Row>, h: Numbers, r: nat, i: nat): (s: Sample)
    requires IsIndex(nCol, rows) && r < |rows|
    ensures Shaped(nCol, s)
  {
    Sample(EqList(nCol, rows, r), LtList(nCol, rows, r), DLtList(nCol, rows, r), rows[r].rowid, false, i,
           h(r))
  }

  /** The sample has the complete counts of row r from column i on. */
  ghost predicate HasCounts(nCol: nat, rows: seq<Row>, x: Sample, r: nat, i: nat)
    requires IsIndex(nCol, rows) && r < |rows| && Shaped(nCol, x)
  {
    forall j | i <= j < nCol :: x.anEq[j] == NEq(nCol, rows, r, j)
  }

  lemma CurrentHasCounts(nCol: nat, rows: seq<Row>, cur: Sample, n: nat, i: nat)
    requires IsIndex(nCol, rows) && |rows| == n + 1 && CurrentOk(nCol, rows, cur)
    ensures HasCounts(nCol, rows, cur, n, i)
  {
  }

  lemma BestHasCounts(nCol: nat, rows: seq<Row>, best: Sample, i: nat)
    requires IsIndex(nCol, rows) && |rows| > 0 && BestOk(nCol, rows, best, i)
    ensures HasCounts(nCol, rows, best, RowOf(best), i + 1)
  {
  }

  /** Rows rank as their samples do. */
  lemma OutranksIsBetter(nCol: nat, rows: seq<Row>, h: Numbers, r: nat, s: nat, i: nat, x: Sample, y: Sample)
    requires IsIndex(nCol, rows) && r < |rows| && s < |rows| && i <= nCol && Shaped(nCol, x) && Shaped(nCol, y)
    requires HasCounts(nCol, rows, x, r, i) && HasCounts(nCol, rows, y, s, i)
    requires x.iHash == h(r) && y.iHash == h(s)
    ensures Outranks(nCol, rows, h, r, s, i) <==> BetterFrom(nCol, x, y, i)
  {
    var q := FirstDifference(nCol, rows, r, s, i);
    FirstDifferenceDecides(nCol, x, y, i, q);
  }

  // ---- the next row ----

  /** A row whose group in column j the new row does not join ends it just as before. */
  lemma EndsGroupAfterPush(nCol: nat, rows: seq<Row>, row: Row, r: nat, j: nat)
    requires Extends(nCol, rows, row) && r < |rows| && j < nCol
    ensures EndsGroup(nCol, rows + [row], r, j) <==>
            EndsGroup(nCol, rows, r, j) && !SameGroup(nCol, rows + [row], r, |rows|, j)
  {
    var rows' := rows + [row];
    assert forall m: nat | m < |rows| :: SameGroup(nCol, rows', r, m, j) == SameGroup(nCol, rows, r, m, j);
  }

  lemma CountsAfterPush(nCol: nat, rows: seq<Row>, row: Row, r: nat, i: nat, j: nat)
    requires Extends(nCol, rows, row) && r < |rows| && i <= j < nCol
    requires !SameGroup(nCol, rows + [row], r, |rows|, i)
    ensures NEq(nCol, rows + [row], r, j) == NEq(nCol, rows, r, j)
  {
    ApartDeeper(nCol, rows + [row], r, |rows|, i, j);
    OldRowCounts(nCol, rows, row, r, j);
  }

  /** Two rows whose groups in column i the new row does not join rank as before. */
  lemma OutranksAfterPush(nCol: nat, rows: seq<Row>, row: Row, h: Numbers, r: nat, s: nat, i: nat)
    requires Extends(nCol, rows, row) && r < |rows| && s < |rows| && i < nCol
    requires !SameGroup(nCol, rows + [row], r, |rows|, i) && !SameGroup(nCol, rows + [row], s, |rows|, i)
    ensures Outranks(nCol, rows + [row], h, r, s, i) == Outranks(nCol, rows, h, r, s, i)
  {
    var rows' := rows + [row];
    var x, y := RowSample(nCol, rows, h, r, i), RowSample(nCol, rows, h, s, i);
    forall j | i <= j < nCol
      ensures x.anEq[j] == NEq(nCol, rows', r, j) && y.anEq[j] == NEq(nCol, rows', s, j)
    {
      CountsAfterPush(nCol, rows, row, r, i, j);
      CountsAfterPush(nCol, rows, row, s, i, j);
    }
    OutranksIsBetter(nCol, rows, h, r, s, i, x, y);
    OutranksIsBetter(nCol, rows', h, r, s, i, x, y);
  }

  lemma PrevailsAfterPush(nCol: nat, rows: seq<Row>, row: Row, h: Numbers, b: nat, r: nat, i: nat)
    requires Extends(nCol, rows, row) && r < |rows| && b < |rows| && i < nCol - 1
    requires !SameGroup(nCol, rows + [row], r, |rows|, i + 1) && !SameGroup(nCol, rows + [row], b, |rows|, i + 1)
    ensures Prevails(nCol, rows + [row], h, b, r, i) == Prevails(nCol, rows, h, b, r, i)
  {
    OutranksAfterPush(nCol, rows, row, h, b, r, i + 1);
    OutranksAfterPush(nCol, rows, row, h, r, b, i + 1);
  }

  /** A contender among the earlier rows was one before. */
  lemma ContendsAfterPush(nCol: nat, rows: seq<Row>, row: Row, r: nat, b: nat, i: nat)
    requires Extends(nCol, rows, row) && r < |rows| && b < |rows| && i < nCol - 1
    ensures Contends(nCol, rows + [row], r, b, i) <==>
            Contends(nCol, rows, r, b, i) && !SameGroup(nCol, rows + [row], r, |rows|, i + 1)
  {
    EndsGroupAfterPush(nCol, rows, row, r, i + 1);
  }

  /** A row that starts a group of column i is chosen for it. */
  lemma FirstIsChosen(nCol: nat, rows: seq<Row>, h: Numbers, n: nat, i: nat)
    requires IsIndex(nCol, rows) && |rows| == n + 1 && i < nCol - 1
    requires forall r: nat | r < n :: !SameGroup(nCol, rows, r, n, i)
    ensures Chosen(nCol, rows, h, n, i)
  {
  }

  /** The candidate of column i is the chosen row of the open group. */
  ghost predicate BestChosen(nCol: nat, rows: seq<Row>, h: Numbers, best: Sample, i: nat)
    requires IsIndex(nCol, rows) && |rows| > 0
  {
    && BestOk(nCol, rows, best, i)
    && best.iHash == h(RowOf(best))
    && Chosen(nCol, rows, h, RowOf(best), i)
  }

  /** The first candidate of a group that the new row starts. */
  lemma NewGroupChosen(nCol: nat, rows: seq<Row>, row: Row, h: Numbers, cur: Sample, i: nat)
    requires IsIndex(nCol, rows + [row]) && IsIndex(nCol, rows) && i < nCol - 1
    requires rows != [] ==> Extends(nCol, rows, row) && i >= Diff(rows[|rows| - 1].key, row.key)
    requires CurrentOk(nCol, rows + [row], cur) && cur.iCol == i && cur.iHash == h(|rows|)
    ensures BestChosen(nCol, rows + [row], h, cur, i)
  {
    var rows' := rows + [row];
    BestStarts(nCol, rows', cur, i);
    assert cur.(iCol := i) == cur;
    forall r: nat | r < |rows|
      ensures !SameGroup(nCol, rows', r, |rows|, i)
    {
      NewRowGroup(nCol, rows, row, r, i);
    }
    FirstIsChosen(nCol, rows', h, |rows|, i);
  }

  /** Outranking is a strict weak order. */
  lemma OutranksOrder(nCol: nat, rows: seq<Row>, h: Numbers, r: nat, s: nat, t: nat, i: nat)
    requires IsIndex(nCol, rows) && r < |rows| && s < |rows| && t < |rows| && i <= nCol
    ensures Outranks(nCol, rows, h, r, s, i) && Outranks(nCol, rows, h, s, t, i) ==> Outranks(nCol, rows, h, r, t, i)
    ensures Outranks(nCol, rows, h, r, t, i) ==> Outranks(nCol, rows, h, r, s, i) || Outranks(nCol, rows, h, s, t, i)
  {
    var x, y, z := RowSample(nCol, rows, h, r, i), RowSample(nCol, rows, h, s, i), RowSample(nCol, rows, h, t, i);
    OutranksIsBetter(nCol, rows, h, r, s, i, x, y);
    OutranksIsBetter(nCol, rows, h, s, t, i, y, z);
    OutranksIsBetter(nCol, rows, h, r, t, i, x, z);
    BetterFromOrder(nCol, x, y, z, i);
  }

  /** Of two rows at most one outranks the other. */
  lemma OutranksOneWay(nCol: nat, rows: seq<Row>, h: Numbers, r: nat, s: nat, i: nat)
    requires IsIndex(nCol, rows) && r < |rows| && s < |rows| && i <= nCol
    ensures !(Outranks(nCol, rows, h, r, s, i) && Outranks(nCol, rows, h, s, r, i))
  {
    var x, y := RowSample(nCol, rows, h, r, i), RowSample(nCol, rows, h, s, i);
    OutranksIsBetter(nCol, rows, h, r, s, i, x, y);
    OutranksIsBetter(nCol, rows, h, s, r, i, y, x);
    BetterFromOrder(nCol, x, y, x, i);
  }

  /** No contender outranks the chosen row. */
  lemma ContenderDoesNotOutrank(nCol: nat, rows: seq<Row>, h: Numbers, b: nat, i: nat, r: nat)
    requires IsIndex(nCol, rows) && b < |rows| && i < nCol - 1 && Chosen(nCol, rows, h, b, i)
    requires r < |rows| && Contends(nCol, rows, r, b, i)
    ensures !Outranks(nCol, rows, h, r, b, i + 1)
  {
    OutranksOneWay(nCol, rows, h, r, b, i + 1);
  }

  /** A row that beats the candidate outranks a row that does not. */
  lemma NewRowOutranks(
      nCol: nat, rows: seq<Row>, row: Row, h: Numbers, cur: Sample, best: Sample, i: nat, n: nat, r: nat, y: Sample)
    requires Extends(nCol, rows, row) && i < nCol && Shaped(nCol, best) && Shaped(nCol, cur) && n == |rows|
    requires HasCounts(nCol, rows + [row], cur, n, i) && cur.iHash == h(n)
    requires r < n && !SameGroup(nCol, rows + [row], r, n, i)
    requires Shaped(nCol, y) && HasCounts(nCol, rows, y, r, i) && y.iHash == h(r)
    requires BetterFrom(nCol, cur, best, i) && !BetterFrom(nCol, y, best, i)
    ensures Outranks(nCol, rows + [row], h, n, r, i)
  {
    var rows' := rows + [row];
    BetterFromOrder(nCol, cur, y, best, i);
    forall j | i <= j < nCol
      ensures y.anEq[j] == NEq(nCol, rows', r, j)
    {
      CountsAfterPush(nCol, rows, row, r, i, j);
    }
    OutranksIsBetter(nCol, rows', h, n, r, i, cur, y);
  }

  lemma NewRowOutranksContender(
      nCol: nat, rows: seq<Row>, row: Row, h: Numbers, cur: Sample, best: Sample, b: nat, i: nat, n: nat, r: nat)
    requires Extends(nCol, rows, row) && i < nCol - 1 && n == |rows| && b < n && Chosen(nCol, rows, h, b, i)
    requires Shaped(nCol, best) && HasCounts(nCol, rows, best, b, i + 1) && best.iHash == h(b)
    requires Shaped(nCol, cur) && HasCounts(nCol, rows + [row], cur, n, i + 1) && cur.iHash == h(n)
    requires BetterFrom(nCol, cur, best, i + 1)
    requires r < n && Contends(nCol, rows, r, b, i) && !SameGroup(nCol, rows + [row], r, n, i + 1)
    ensures Outranks(nCol, rows + [row], h, n, r, i + 1)
  {
    var y := RowSample(nCol, rows, h, r, i);
    ContenderDoesNotOutrank(nCol, rows, h, b, i, r);
    OutranksIsBetter(nCol, rows, h, r, b, i + 1, y, best);
    NewRowOutranks(nCol, rows, row, h, cur, best, i + 1, n, r, y);
  }

  /** So it is the chosen one of the longer list. */
  lemma NewRowIsChosen(
      nCol: nat, rows: seq<Row>, row: Row, h: Numbers, cur: Sample, best: Sample, b: nat, i: nat, n: nat)
    requires Extends(nCol, rows, row) && i < nCol - 1 && n == |rows| && b < n && Chosen(nCol, rows, h, b, i)
    requires SameGroup(nCol, rows, b, n - 1, i)
    requires Shaped(nCol, best) && HasCounts(nCol, rows, best, b, i + 1) && best.iHash == h(b)
    requires Shaped(nCol, cur) && HasCounts(nCol, rows + [row], cur, n, i + 1) && cur.iHash == h(n)
    requires BetterFrom(nCol, cur, best, i + 1)
    ensures Chosen(nCol, rows + [row], h, n, i)
  {
    var rows' := rows + [row];
    forall r: nat | r < n && Contends(nCol, rows', r, n, i)
      ensures Outranks(nCol, rows', h, n, r, i + 1)
    {
      EndsGroupAfterPush(nCol, rows, row, r, i + 1);
      NewRowGroup(nCol, rows, row, r, i);
      NewRowOutranksContender(nCol, rows, row, h, cur, best, b, i, n, r);
    }
  }

  /** A row that beats the candidate is chosen in its place. */
  lemma BetterIsChosen(nCol: nat, rows: seq<Row>, row: Row, h: Numbers, cur: Sample, best: Sample, i: nat)
    requires Extends(nCol, rows, row) && i < nCol - 1 && BestChosen(nCol, rows, h, best, i)
    requires CurrentOk(nCol, rows + [row], cur) && cur.iCol == i && cur.iHash == h(|rows|)
    requires BetterPost(nCol, cur, best)
    ensures BestChosen(nCol, rows + [row], h, cur, i)
  {
    BestStarts(nCol, rows + [row], cur, i);
    assert cur.(iCol := i) == cur;
    BestHasCounts(nCol, rows, best, i);
    CurrentHasCounts(nCol, rows + [row], cur, |rows|, i + 1);
    NewRowIsChosen(nCol, rows, row, h, cur, best, RowOf(best), i, |rows|);
  }

  /** The choice for a group that the new row joins stands unless the row outranks it. */
  lemma ChosenUnlessOutranked(nCol: nat, rows: seq<Row>, row: Row, h: Numbers, b: nat, i: nat)
    requires Extends(nCol, rows, row) && b < |rows| && i < nCol - 1 && Chosen(nCol, rows, h, b, i)
    requires !SameGroup(nCol, rows + [row], b, |rows|, i + 1)
    ensures !Outranks(nCol, rows + [row], h, |rows|, b, i + 1) ==> Chosen(nCol, rows + [row], h, b, i)
  {
    var rows', n := rows + [row], |rows|;
    EndsGroupAfterPush(nCol, rows, row, b, i + 1);
    forall r: nat | r < n && r != b && Contends(nCol, rows', r, b, i)
      ensures Prevails(nCol, rows', h, b, r, i)
    {
      ContendsAfterPush(nCol, rows, row, r, b, i);
      PrevailsAfterPush(nCol, rows, row, h, b, r, i);
    }
  }

  /** The choice for a group that the new row does not join stands. */
  lemma ChosenAfterPush(nCol: nat, rows: seq<Row>, row: Row, h: Numbers, b: nat, i: nat)
    requires Extends(nCol, rows, row) && b < |rows| && i < nCol - 1 && Chosen(nCol, rows, h, b, i)
    requires !SameGroup(nCol, rows + [row], b, |rows|, i)
    ensures Chosen(nCol, rows + [row], h, b, i)
  {
    var rows', n := rows + [row], |rows|;
    ApartDeeper(nCol, rows', b, n, i, i + 1);
    EndsGroupAfterPush(nCol, rows, row, b, i + 1);
    forall r: nat | r < |rows'| && r != b && Contends(nCol, rows', r, b, i)
      ensures Prevails(nCol, rows', h, b, r, i)
    {
      assert r != n;
      ContendsAfterPush(nCol, rows, row, r, b, i);
      PrevailsAfterPush(nCol, rows, row, h, b, r, i);
    }
  }

  lemma UnbeatenDoesNotContinue(nCol: nat, rows: seq<Row>, best: Sample, i: nat, n: nat)
    requires IsIndex(nCol, rows) && |rows| == n + 1 && BestOk(nCol, rows, best, i) && RowOf(best) < n
    ensures !SameGroup(nCol, rows, RowOf(best), n, i + 1)
  {
  }

  lemma UnbeatenStaysChosen(
      nCol: nat, rows: seq<Row>, row: Row, h: Numbers, cur: Sample, best: Sample, b: nat, i: nat, n: nat)
    requires Extends(nCol, rows, row) && i < nCol - 1 && n == |rows| && b < n && Chosen(nCol, rows, h, b, i)
    requires !SameGroup(nCol, rows + [row], b, n, i + 1) && Shaped(nCol, cur) && Shaped(nCol, best)
    requires HasCounts(nCol, rows + [row], cur, n, i + 1) && HasCounts(nCol, rows + [row], best, b, i + 1)
    requires cur.iHash == h(n) && best.iHash == h(b) && !BetterFrom(nCol, cur, best, i + 1)
    ensures Chosen(nCol, rows + [row], h, b, i)
  {
    OutranksIsBetter(nCol, rows + [row], h, n, b, i + 1, cur, best);
    ChosenUnlessOutranked(nCol, rows, row, h, b, i);
  }

  /** A candidate that is not beaten stays the chosen row. */
  lemma UnbeatenIsChosen(nCol: nat, rows: seq<Row>, row: Row, h: Numbers, cur: Sample, best: Sample, i: nat)
    requires Extends(nCol, rows, row) && i < nCol - 1 && BestChosen(nCol, rows, h, best, i)
    requires i < Diff(rows[|rows| - 1].key, row.key)
    requires CurrentOk(nCol, rows + [row], cur) && cur.iCol == i && cur.iHash == h(|rows|)
    requires !BetterPost(nCol, cur, best)
    ensures BestChosen(nCol, rows + [row], h, best, i)
  {
    assert cur.(iCol := i) == cur;
    BestSurvives(nCol, rows, row, cur, best, i);
    UnbeatenDoesNotContinue(nCol, rows + [row], best, i, |rows|);
    CurrentHasCounts(nCol, rows + [row], cur, |rows|, i + 1);
    BestHasCounts(nCol, rows + [row], best, i);
    UnbeatenStaysChosen(nCol, rows, row, h, cur, best, RowOf(best), i, |rows|);
  }

  // ---- every group has a chosen row ----

  /** Row b would be chosen for row r's group if the contenders were those among the first n rows. */
  ghost predicate Leads(nCol: nat, rows: seq<Row>, h: Numbers, r: nat, b: nat, i: nat, n: nat)
    requires IsIndex(nCol, rows) && r < |rows| && b < n <= |rows| && i < nCol - 1
  {
    && Contends(nCol, rows, b, r, i)
    && forall s: nat | s < n && s != b && Contends(nCol, rows, s, r, i) :: Prevails(nCol, rows, h, b, s, i)
  }

  lemma LeadsOneMore(nCol: nat, rows: seq<Row>, h: Numbers, r: nat, b: nat, i: nat, n: nat) returns (b': nat)
    requires IsIndex(nCol, rows) && r < |rows| && b < n < |rows| && i < nCol - 1 && Leads(nCol, rows, h, r, b, i, n)
    ensures b' <= n && Leads(nCol, rows, h, r, b', i, n + 1)
  {
    b' := b;
    if Contends(nCol, rows, n, r, i) && Outranks(nCol, rows, h, n, b, i + 1) {
      b' := n;
      forall s: nat | s < n && Contends(nCol, rows, s, r, i)
        ensures Outranks(nCol, rows, h, n, s, i + 1)
      {
        OvertakesContender(nCol, rows, h, b, i, n, s);
      }
    }
  }

  /** Whoever outranks a row outranks all that the row outranks, and all that do not outrank it. */
  lemma OvertakesContender(nCol: nat, rows: seq<Row>, h: Numbers, b: nat, i: nat, n: nat, s: nat)
    requires IsIndex(nCol, rows) && b < |rows| && n < |rows| && s < |rows| && i < nCol - 1
    requires Outranks(nCol, rows, h, n, b, i + 1)
    requires s == b || Outranks(nCol, rows, h, b, s, i + 1) || !Outranks(nCol, rows, h, s, b, i + 1)
    ensures Outranks(nCol, rows, h, n, s, i + 1)
  {
    OutranksOrder(nCol, rows, h, n, b, s, i + 1);
    OutranksOrder(nCol, rows, h, n, s, b, i + 1);
  }

  lemma {:induction false} SomeLeads(nCol: nat, rows: seq<Row>, h: Numbers, r: nat, e: nat, i: nat, n: nat)
    returns (b: nat)
    requires IsIndex(nCol, rows) && r < |rows| && e < n <= |rows| && i < nCol - 1 && Contends(nCol, rows, e, r, i)
    ensures b < n && Leads(nCol, rows, h, r, b, i, n)
    decreases n
  {
    if s: nat :| s < n - 1 && Contends(nCol, rows, s, r, i) {
      b := SomeLeads(nCol, rows, h, r, s, i, n - 1);
      b := LeadsOneMore(nCol, rows, h, r, b, i, n - 1);
    } else {
      b := e;
    }
  }

  /** Every group has a chosen row. */
  lemma SomeIsChosen(nCol: nat, rows: seq<Row>, h: Numbers, r: nat, i: nat) returns (b: nat)
    requires IsIndex(nCol, rows) && r < |rows| && i < nCol - 1
    ensures b < |rows| && SameGroup(nCol, rows, b, r, i) && Chosen(nCol, rows, h, b, i)
  {
    var e := GroupEnd(nCol, rows, r, i + 1);
    SameGroupShorter(nCol, rows, r, e, i, i + 1);
    b := SomeLeads(nCol, rows, h, r, e, i, |rows|);
    forall s: nat | s < |rows| && Contends(nCol, rows, s, b, i)
      ensures Contends(nCol, rows, s, r, i)
    {
    }
  }

  // ---- the rows in the sample array ----

  /** Row r can stand for its group of column i: it lies in a largest group of the next column,
      and it is the row chosen for its group of that or a later column. */
  ghost predicate RowChosen(nCol: nat, rows: seq<Row>, h: Numbers, r: nat, i: nat)
    requires IsIndex(nCol, rows) && r < |rows| && i < nCol - 1
  {
    InLargest(nCol, rows, r, i) && exists c :: i <= c < nCol - 1 && Chosen(nCol, rows, h, r, c)
  }

  ghost predicate EntryChosen(nCol: nat, rows: seq<Row>, h: Numbers, s: Sample)
    requires IsIndex(nCol, rows)
  {
    && Ranked(nCol, s) && RowOf(s) < |rows| && s.iHash == h(RowOf(s))
    && (!s.isPSample ==> s.iCol < nCol - 1 && RowChosen(nCol, rows, h, RowOf(s), s.iCol))
  }

  ghost predicate AllChosen(nCol: nat, rows: seq<Row>, h: Numbers, a: seq<Sample>)
    requires IsIndex(nCol, rows)
  {
    forall k | 0 <= k < |a| :: EntryChosen(nCol, rows, h, a[k])
  }

  /** The group that an entry stands for has ended. */
  lemma EntryIsNotJoined(nCol: nat, rows: seq<Row>, row: Row, period: nat, s: Sample, d: nat)
    requires Extends(nCol, rows, row) && period > 0 && d == Diff(rows[|rows| - 1].key, row.key)
    requires SampleOk(nCol, rows, period, s, d - 1) && !s.isPSample
    ensures !SameGroup(nCol, rows + [row], RowOf(s), |rows|, s.iCol)
  {
    NewRowGroup(nCol, rows, row, RowOf(s), s.iCol);
    assert CountOk(nCol, rows, s, d - 1, s.iCol);
    NEqPositive(nCol, rows, RowOf(s), s.iCol);
  }

  lemma InLargestAfterPush(nCol: nat, rows: seq<Row>, row: Row, b: nat, i: nat)
    requires Extends(nCol, rows, row) && b < |rows| && i < nCol - 1 && InLargest(nCol, rows, b, i)
    requires !SameGroup(nCol, rows + [row], b, |rows|, i)
    ensures InLargest(nCol, rows + [row], b, i)
  {
    var rows' := rows + [row];
    CountsAfterPush(nCol, rows, row, b, i, i + 1);
    forall r: nat | r < |rows'| && SameGroup(nCol, rows', r, b, i)
      ensures NEq(nCol, rows', r, i + 1) <= NEq(nCol, rows', b, i + 1)
    {
      assert r != |rows|;
      assert SameGroup(nCol, rows, r, b, i);
      CountsAfterPush(nCol, rows, row, r, i, i + 1);
    }
  }

  lemma RowChosenAfterPush(nCol: nat, rows: seq<Row>, row: Row, h: Numbers, b: nat, i: nat)
    requires Extends(nCol, rows, row) && b < |rows| && i < nCol - 1 && RowChosen(nCol, rows, h, b, i)
    requires !SameGroup(nCol, rows + [row], b, |rows|, i)
    ensures RowChosen(nCol, rows + [row], h, b, i)
  {
    InLargestAfterPush(nCol, rows, row, b, i);
    var c :| i <= c < nCol - 1 && Chosen(nCol, rows, h, b, c);
    ApartDeeper(nCol, rows + [row], b, |rows|, i, c);
    ChosenAfterPush(nCol, rows, row, h, b, c);
  }

  /** The next row takes nothing back. */
  lemma AllChosenAfterPush(
      nCol: nat, rows: seq<Row>, row: Row, h: Numbers, period: nat, a: seq<Sample>, d: nat)
    requires Extends(nCol, rows, row) && period > 0 && d == Diff(rows[|rows| - 1].key, row.key)
    requires AllOk(nCol, rows, period, a, d - 1) && AllChosen(nCol, rows, h, a)
    ensures AllChosen(nCol, rows + [row], h, a)
  {
    var lo := d - 1;
    forall k | 0 <= k < |a|
      ensures EntryChosen(nCol, rows + [row], h, a[k])
    {
      assert EntryChosen(nCol, rows, h, a[k]) && SampleOk(nCol, rows, period, a[k], lo);
      if !a[k].isPSample {
        EntryIsNotJoined(nCol, rows, row, period, a[k], d);
        RowChosenAfterPush(nCol, rows, row, h, RowOf(a[k]), a[k].iCol);
      }
    }
  }

  /** Entry k of the open group of column i is worth no more than the preferred entry t. */
  lemma OpenEntryIsSmaller(
      nCol: nat, rows: seq<Row>, period: nat, a: seq<Sample>, i: nat, t: nat, k: nat, r: nat)
    requires IsIndex(nCol, rows) && |rows| > 0 && period > 0 && i + 1 < nCol - 1
    requires AllOk(nCol, rows, period, a, i) && IsUpgrade(nCol, a, i, t)
    requires r < |rows| && SameGroup(nCol, rows, r, |rows| - 1, i)
    requires k < |a| && Represents(nCol, rows, a[k], r, i + 1)
    ensures NEq(nCol, rows, r, i + 1) <= Score(nCol, a[t])
  {
    assert SampleOk(nCol, rows, period, a[k], i);
    SameGroupShorter(nCol, rows, RowOf(a[k]), r, i, i + 1);
    ZeroMeansOpen(nCol, rows, period, a[k], i);
    OpenSampleIsDeeper(nCol, rows, period, a[k], i);
    NEqOfGroup(nCol, rows, RowOf(a[k]), r, i + 1);
  }

  lemma GroupIsSmaller(
      nCol: nat, rows: seq<Row>, period: nat, mx: nat, a: seq<Sample>, i: nat, t: nat, r: nat)
    requires IsIndex(nCol, rows) && |rows| > 0 && period > 0 && i + 1 < nCol - 1 && Placed(nCol, rows, a)
    requires AllOk(nCol, rows, period, a, i) && AllServed(nCol, rows, mx, a, i) && IsUpgrade(nCol, a, i, t)
    requires r < |rows| && SameGroup(nCol, rows, r, |rows| - 1, i)
    ensures NEq(nCol, rows, r, i + 1) <= Score(nCol, a[t])
  {
    assert Closed(nCol, rows, i, r, i + 1);
    assert Served(nCol, rows, mx, a, r, i + 1);
    if Represented(nCol, rows, a, r, i + 1) {
      var k: nat :| k < |a| && Represents(nCol, rows, a[k], r, i + 1);
      OpenEntryIsSmaller(nCol, rows, period, a, i, t, k, r);
    }
  }

  /** The entry that is upgraded lies in a largest group of the next column: larger ones would
      have an entry, and it would be preferred. */
  lemma UpgradeInLargest(nCol: nat, rows: seq<Row>, period: nat, mx: nat, a: seq<Sample>, i: nat, t: nat)
    requires IsIndex(nCol, rows) && |rows| > 0 && period > 0 && i + 1 < nCol && Placed(nCol, rows, a)
    requires AllOk(nCol, rows, period, a, i) && AllServed(nCol, rows, mx, a, i) && IsUpgrade(nCol, a, i, t)
    ensures InLargest(nCol, rows, RowOf(a[t]), i)
  {
    var b := RowOf(a[t]);
    assert SampleOk(nCol, rows, period, a[t], i);
    ZeroMeansOpen(nCol, rows, period, a[t], i);
    OpenSampleIsDeeper(nCol, rows, period, a[t], i);
    NEqAntitone(nCol, rows, b, i + 1, a[t].iCol);
    forall r: nat | r < |rows| && SameGroup(nCol, rows, r, b, i)
      ensures NEq(nCol, rows, r, i + 1) <= NEq(nCol, rows, b, i + 1)
    {
      if i + 1 < nCol - 1 {
        GroupIsSmaller(nCol, rows, period, mx, a, i, t, r);
      } else {
        RowIndexIsNLt(nCol, rows, r);
        RowIndexIsNLt(nCol, rows, b);
      }
    }
  }

  lemma UpgradeKeepsChosen(
      nCol: nat, rows: seq<Row>, h: Numbers, period: nat, mx: nat, a: seq<Sample>, i: nat, t: nat,
      a': seq<Sample>)
    requires IsIndex(nCol, rows) && |rows| > 0 && period > 0 && i + 1 < nCol && Placed(nCol, rows, a)
    requires AllOk(nCol, rows, period, a, i) && AllServed(nCol, rows, mx, a, i) && IsUpgrade(nCol, a, i, t)
    requires IsUpgraded(nCol, rows, a, i, t, a') && AllChosen(nCol, rows, h, a)
    ensures AllChosen(nCol, rows, h, a')
  {
    UpgradeInLargest(nCol, rows, period, mx, a, i, t);
    assert SampleOk(nCol, rows, period, a[t], i) && EntryChosen(nCol, rows, h, a[t]);
    OpenSampleIsDeeper(nCol, rows, period, a[t], i);
    var c :| a[t].iCol <= c < nCol - 1 && Chosen(nCol, rows, h, RowOf(a[t]), c);
    assert RowChosen(nCol, rows, h, RowOf(a[t]), i);
    assert EntryChosen(nCol, rows, h, a'[t]);
  }

  /** An inserted candidate is the row chosen for its column. */
  lemma InsertedIsChosen(nCol: nat, rows: seq<Row>, h: Numbers, best: Sample, i: nat, s: Sample)
    requires IsIndex(nCol, rows) && |rows| > 0 && BestChosen(nCol, rows, h, best, i)
    requires s == Zeroed(Candidate(nCol, rows, best, i), i)
    ensures EntryChosen(nCol, rows, h, s)
  {
    ChosenIsLargest(nCol, rows, h, RowOf(best), i);
    assert RowChosen(nCol, rows, h, RowOf(best), i);
  }

  lemma AppendKeepsChosen(
      nCol: nat, rows: seq<Row>, h: Numbers, mx: nat, a: seq<Sample>, iMin: nat, s: Sample, a': seq<Sample>)
    requires IsIndex(nCol, rows) && AllChosen(nCol, rows, h, a) && EntryChosen(nCol, rows, h, s)
    requires (|a| >= mx ==> iMin < |a|) && a' == WithRoom(a, mx, iMin) + [s]
    ensures AllChosen(nCol, rows, h, a')
  {
    forall k | 0 <= k < |a'|
      ensures EntryChosen(nCol, rows, h, a'[k])
    {
      if k < |a'| - 1 {
        var k0 := WithRoomAt(a, mx, iMin, k);
      }
    }
  }

  /** Filling in counts moves no entry to another row. */
  lemma FillKeepsChosen(
      nCol: nat, rows: seq<Row>, h: Numbers, cur: Sample, a: seq<Sample>, d: nat, b: seq<Sample>)
    requires IsIndex(nCol, rows) && AllChosen(nCol, rows, h, a) && Shaped(nCol, cur)
    requires (forall k | 0 <= k < |a| :: Shaped(nCol, a[k])) && b == FilledAll(nCol, cur, a, d)
    ensures AllChosen(nCol, rows, h, b)
  {
    forall k | 0 <= k < |b|
      ensures EntryChosen(nCol, rows, h, b[k])
    {
      assert EntryChosen(nCol, rows, h, a[k]);
    }
  }
}
