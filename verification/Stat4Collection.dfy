/** The sample array as a whole: what each change that a push makes to it keeps. */
module Stat4Collection {
  import opened IndexRows
  import opened Samples
  import opened Arith
  import opened Stat4Invariant

  /** Entry k lies in row r's group of column j and either is periodic or stands
      for that group or a larger one around it. */
  ghost predicate Represents(nCol: nat, rows: seq<Row>, s: Sample, r: nat, j: nat)
    requires IsIndex(nCol, rows) && r < |rows| && j < nCol
    requires Shaped(nCol, s) && RowOf(s) < |rows|
  {
    SameGroup(nCol, rows, RowOf(s), r, j) && (s.isPSample || s.iCol <= j)
  }

  ghost predicate Represented(nCol: nat, rows: seq<Row>, a: seq<Sample>, r: nat, j: nat)
    requires IsIndex(nCol, rows) && r < |rows| && j < nCol && Placed(nCol, rows, a)
  {
    exists k :: 0 <= k < |a| && Represents(nCol, rows, a[k], r, j)
  }

  /** Every entry can be ranked and belongs to a scanned row. */
  ghost predicate Placed(nCol: nat, rows: seq<Row>, a: seq<Sample>) {
    forall k | 0 <= k < |a| :: Ranked(nCol, a[k]) && RowOf(a[k]) < |rows|
  }

  /** No non-periodic entry stands for fewer than n rows. */
  ghost predicate ScoresAtLeast(nCol: nat, a: seq<Sample>, n: nat)
    requires AllRanked(nCol, a)
  {
    forall k | 0 <= k < |a| && !a[k].isPSample :: n <= Score(nCol, a[k])
  }

  /** Row r's group of column j has a sample, or the array is full of samples that
      stand for groups at least as large. */
  ghost predicate Served(nCol: nat, rows: seq<Row>, mx: nat, a: seq<Sample>, r: nat, j: nat)
    requires IsIndex(nCol, rows) && r < |rows| && j < nCol && Placed(nCol, rows, a)
  {
    || Represented(nCol, rows, a, r, j)
    || (|a| >= mx && ScoresAtLeast(nCol, a, NEq(nCol, rows, r, j)))
  }

  /** A group that is closed, or is being closed and lies to the right of column lo. */
  ghost predicate Closed(nCol: nat, rows: seq<Row>, lo: int, r: nat, j: nat)
    requires IsIndex(nCol, rows) && r < |rows| && j < nCol
  {
    j < nCol - 1 && (!Open(nCol, rows, r, j) || j > lo)
  }

  ghost predicate AllServed(nCol: nat, rows: seq<Row>, mx: nat, a: seq<Sample>, lo: int)
    requires IsIndex(nCol, rows) && Placed(nCol, rows, a)
  {
    forall r: nat, j: nat | r < |rows| && j < nCol && Closed(nCol, rows, lo, r, j) ::
      Served(nCol, rows, mx, a, r, j)
  }

  ghost predicate HasRow(nCol: nat, a: seq<Sample>, r: nat)
    requires AllRanked(nCol, a)
  {
    exists k :: 0 <= k < |a| && RowOf(a[k]) == r
  }

  /** Every evenly spaced row among the first n is in the array. */
  ghost predicate PeriodicKept(nCol: nat, period: nat, a: seq<Sample>, n: nat)
    requires period > 0 && AllRanked(nCol, a)
  {
    forall r: nat | r < n && IsPeriodic(period, r) :: HasRow(nCol, a, r)
  }

  /** If samples lie in the open group of column q, one of them represents it. */
  ghost predicate OpenGroupServed(nCol: nat, rows: seq<Row>, a: seq<Sample>, q: nat)
    requires IsIndex(nCol, rows) && |rows| > 0 && q < nCol && Placed(nCol, rows, a)
  {
    forall k | 0 <= k < |a| && Open(nCol, rows, RowOf(a[k]), q) ::
      Represented(nCol, rows, a, |rows| - 1, q)
  }

  /** Sample y's group is not one that x, which stands for a group at least as wide, lies in. */
  ghost predicate Apart(nCol: nat, rows: seq<Row>, x: Sample, y: Sample)
    requires IsIndex(nCol, rows) && Ranked(nCol, x) && Ranked(nCol, y) && RowOf(x) < |rows| && RowOf(y) < |rows|
  {
    x.iCol <= y.iCol ==> !SameGroup(nCol, rows, RowOf(x), RowOf(y), y.iCol)
  }

  /** Non-periodic entries stand for different groups. */
  ghost predicate StandApart(nCol: nat, rows: seq<Row>, a: seq<Sample>)
    requires IsIndex(nCol, rows) && Placed(nCol, rows, a)
  {
    forall k, l | 0 <= k < |a| && 0 <= l < |a| && k != l && !a[k].isPSample && !a[l].isPSample ::
      Apart(nCol, rows, a[k], a[l])
  }

  /** The sample array between and during pushes.  Column lo is the next to close. */
  ghost predicate Collected(nCol: nat, rows: seq<Row>, period: nat, mx: nat, a: seq<Sample>, iMin: nat, lo: int)
    requires IsIndex(nCol, rows) && period > 0
  {
    && AllOk(nCol, rows, period, a, lo)
    && |a| <= mx
    && Ordered(nCol, a)
    && (|a| == mx ==> IsMinimum(nCol, a, iMin))
    && PeriodicKept(nCol, period, a, |rows|)
    && AllServed(nCol, rows, mx, a, lo)
    && StandApart(nCol, rows, a)
  }

  // ---- periodic samples ----

  lemma PeriodicStep(period: nat, r: nat, s: nat)
    requires period > 0 && r < s
    ensures (r + 1) / period <= (s + 1) / period
    ensures IsPeriodic(period, s) ==> (r + 1) / period < (s + 1) / period
  {
    var q := (s + 1) / period;
    assert s + 1 == period * q + (s + 1) % period;
    assert period * (q + 1) == period * q + period;
    QuotientBelow(r + 1, period, q + 1);
    if IsPeriodic(period, s) {
      QuotientBelow(r + 1, period, q);
    }
  }

  lemma {:induction false} PeriodicCountByRow(nCol: nat, rows: seq<Row>, period: nat, a: seq<Sample>, lo: int)
    requires IsIndex(nCol, rows) && period > 0
    requires AllOk(nCol, rows, period, a, lo) && Ordered(nCol, a)
    ensures a != [] ==> PeriodicCount(a) <= (RowOf(a[|a| - 1]) + 1) / period
  {
    if a != [] {
      var b := a[..|a| - 1];
      PeriodicCountByRow(nCol, rows, period, b, lo);
      var s := RowOf(a[|a| - 1]);
      assert SampleOk(nCol, rows, period, a[|a| - 1], lo);
      if b != [] {
        PeriodicStep(period, RowOf(b[|b| - 1]), s);
      } else if IsPeriodic(period, s) {
        assert (s + 1) / period >= 1;
      }
    }
  }

  lemma QuotientMonotone(m: nat, n: nat, period: nat)
    requires period > 0 && m <= n
    ensures m / period <= n / period
  {
    if m < n && m > 0 {
      PeriodicStep(period, m - 1, n - 1);
    }
  }

  /** The spacing leaves room: with at most `total` rows there are at most mx/3 evenly spaced ones. */
  lemma SpacingLeavesRoom(total: nat, n: nat, mx: nat)
    requires n <= total
    ensures n / (total / (mx / 3 + 1) + 1) <= mx / 3
  {
    var m := mx / 3 + 1;
    var period := total / m + 1;
    assert total == m * (total / m) + total % m;
    assert m * period == m * (total / m) + m;
    assert m * period == period * m;
    QuotientBelow(n, period, m);
  }

  lemma {:induction false} PeriodicSamplesBounded(
      nCol: nat, rows: seq<Row>, total: nat, mx: nat, a: seq<Sample>, lo: int)
    requires IsIndex(nCol, rows) && |rows| <= total
    requires AllOk(nCol, rows, Spacing(total, mx), a, lo) && Ordered(nCol, a)
    ensures PeriodicCount(a) <= mx / 3
  {
    if a != [] {
      var period := Spacing(total, mx);
      PeriodicCountByRow(nCol, rows, period, a, lo);
      QuotientMonotone(RowOf(a[|a| - 1]) + 1, |rows|, period);
      SpacingLeavesRoom(total, |rows|, mx);
    }
  }

  /** How often a periodic sample is taken. */
  function Spacing(total: nat, mx: nat): (period: nat)
    ensures period > 0
  {
    total / (mx / 3 + 1) + 1
  }

  /** The spacing is the least one for which evenly spaced rows fill at most a third of the array. */
  lemma SpacingIsLeast(total: nat, mx: nat, p: nat)
    requires p > 0
    ensures total / p <= mx / 3 <==> p >= Spacing(total, mx)
  {
    var m := mx / 3 + 1;
    QuotientBelowIff(total, p, m);
    QuotientBelowIff(total, m, p);
    assert p * m == m * p;
  }

  // ---- making room and appending ----

  lemma WithoutAt(a: seq<Sample>, m: nat, k: nat) returns (k': nat)
    requires m < |a| && k < |a| && k != m
    ensures k' < |a| - 1 && Without(a, m)[k'] == a[k]
  {
    k' := if k < m then k else k - 1;
  }

  /** Evicting the minimum: a group that loses its representative is small. */
  lemma EvictKeepsServed(
      nCol: nat, rows: seq<Row>, period: nat, mx: nat, a: seq<Sample>, m: nat, lo: int, r: nat, j: nat)
    requires IsIndex(nCol, rows) && period > 0 && r < |rows| && j < nCol
    requires AllOk(nCol, rows, period, a, lo) && IsMinimum(nCol, a, m)
    requires Served(nCol, rows, mx, a, r, j)
    ensures || Represented(nCol, rows, Without(a, m), r, j)
            || (ScoresAtLeast(nCol, Without(a, m), NEq(nCol, rows, r, j)) && NEq(nCol, rows, r, j) <= Score(nCol, a[m]))
  {
    if Represented(nCol, rows, a, r, j) {
      var k: nat :| k < |a| && Represents(nCol, rows, a[k], r, j);
      if k == m {
        assert SampleOk(nCol, rows, period, a[m], lo);
        NEqOfGroup(nCol, rows, RowOf(a[m]), r, j);
        NEqAntitone(nCol, rows, RowOf(a[m]), a[m].iCol, j);
      } else {
        var k' := WithoutAt(a, m, k);
        assert Represents(nCol, rows, Without(a, m)[k'], r, j);
      }
    }
  }

  lemma AppendKeepsServed(nCol: nat, rows: seq<Row>, mx: nat, b: seq<Sample>, s: Sample, r: nat, j: nat)
    requires IsIndex(nCol, rows) && r < |rows| && j < nCol
    requires Placed(nCol, rows, b + [s]) && Placed(nCol, rows, b)
    requires || Represented(nCol, rows, b, r, j)
             || (&& |b| + 1 >= mx && ScoresAtLeast(nCol, b, NEq(nCol, rows, r, j))
                 && (s.isPSample || NEq(nCol, rows, r, j) <= Score(nCol, (b + [s])[|b|])))
    ensures Served(nCol, rows, mx, b + [s], r, j)
  {
    if Represented(nCol, rows, b, r, j) {
      var k: nat :| k < |b| && Represents(nCol, rows, b[k], r, j);
      assert Represents(nCol, rows, (b + [s])[k], r, j);
    }
  }

  /** The array with the minimum removed if it is full. */
  function WithRoom(a: seq<Sample>, mx: nat, iMin: nat): (b: seq<Sample>)
    requires |a| >= mx ==> iMin < |a|
    ensures |b| == if |a| >= mx then |a| - 1 else |a|
  {
    if |a| >= mx then Without(a, iMin) else a
  }

  /** Where an entry was before room was made. */
  lemma WithRoomAt(a: seq<Sample>, mx: nat, iMin: nat, k: nat) returns (k0: nat)
    requires (|a| >= mx ==> iMin < |a|) && k < |WithRoom(a, mx, iMin)|
    ensures k0 < |a| && WithRoom(a, mx, iMin)[k] == a[k0]
    ensures k0 == if |a| >= mx && k >= iMin then k + 1 else k
  {
    k0 := if |a| >= mx && k >= iMin then k + 1 else k;
  }

  lemma InsertKeepsServed(
      nCol: nat, rows: seq<Row>, period: nat, mx: nat, a: seq<Sample>, iMin: nat, b: seq<Sample>, s: Sample,
      lo: int, r: nat, j: nat)
    requires IsIndex(nCol, rows) && period > 0 && r < |rows| && j < nCol && |a| <= mx
    requires AllOk(nCol, rows, period, a, lo) && (|a| == mx ==> IsMinimum(nCol, a, iMin))
    requires b == WithRoom(a, mx, iMin) && Placed(nCol, rows, b) && Placed(nCol, rows, b + [s])
    requires Ranked(nCol, s)
    requires |a| == mx ==> s.isPSample || Score(nCol, a[iMin]) <= Score(nCol, s)
    requires Served(nCol, rows, mx, a, r, j)
    ensures Served(nCol, rows, mx, b + [s], r, j)
  {
    if |a| == mx {
      EvictKeepsServed(nCol, rows, period, mx, a, iMin, lo, r, j);
    }
    AppendKeepsServed(nCol, rows, mx, b, s, r, j);
  }

  lemma AppendKeepsApart(nCol: nat, rows: seq<Row>, b: seq<Sample>, s: Sample, c: seq<Sample>)
    requires IsIndex(nCol, rows) && Placed(nCol, rows, b) && c == b + [s] && Placed(nCol, rows, c)
    requires StandApart(nCol, rows, b) && Ranked(nCol, s) && RowOf(s) < |rows|
    requires s.isPSample || forall k | 0 <= k < |b| && !b[k].isPSample ::
               Apart(nCol, rows, b[k], s) && Apart(nCol, rows, s, b[k])
    ensures StandApart(nCol, rows, c)
  {
    forall k, l | 0 <= k < |c| && 0 <= l < |c| && k != l && !c[k].isPSample && !c[l].isPSample
      ensures Apart(nCol, rows, c[k], c[l])
    {
      if k < |b| && l < |b| {
        assert Apart(nCol, rows, b[k], b[l]);
      }
    }
  }

  lemma WithRoomKeepsApart(nCol: nat, rows: seq<Row>, mx: nat, a: seq<Sample>, iMin: nat, b: seq<Sample>)
    requires IsIndex(nCol, rows) && Placed(nCol, rows, a) && (|a| >= mx ==> iMin < |a|)
    requires b == WithRoom(a, mx, iMin) && Placed(nCol, rows, b) && StandApart(nCol, rows, a)
    ensures StandApart(nCol, rows, b)
  {
    forall k, l | 0 <= k < |b| && 0 <= l < |b| && k != l && !b[k].isPSample && !b[l].isPSample
      ensures Apart(nCol, rows, b[k], b[l])
    {
      var k0 := WithRoomAt(a, mx, iMin, k);
      var l0 := WithRoomAt(a, mx, iMin, l);
      assert Apart(nCol, rows, a[k0], a[l0]);
    }
  }

  lemma WithoutKeepsRow(nCol: nat, a: seq<Sample>, m: nat, r: nat)
    requires AllRanked(nCol, a) && m < |a| && RowOf(a[m]) != r && HasRow(nCol, a, r)
    ensures AllRanked(nCol, Without(a, m)) && HasRow(nCol, Without(a, m), r)
  {
    var k: nat :| k < |a| && RowOf(a[k]) == r;
    var k' := WithoutAt(a, m, k);
    WithoutRanked(nCol, a, m);
  }

  lemma WithoutRanked(nCol: nat, a: seq<Sample>, m: nat)
    requires AllRanked(nCol, a) && m < |a|
    ensures AllRanked(nCol, Without(a, m))
  {
  }

  lemma AppendKeepsRow(nCol: nat, b: seq<Sample>, s: Sample, r: nat)
    requires AllRanked(nCol, b) && AllRanked(nCol, b + [s]) && Ranked(nCol, s)
    requires HasRow(nCol, b, r) || RowOf(s) == r
    ensures HasRow(nCol, b + [s], r)
  {
    if HasRow(nCol, b, r) {
      var k: nat :| k < |b| && RowOf(b[k]) == r;
      assert (b + [s])[k] == b[k];
    } else {
      assert (b + [s])[|b|] == s;
    }
  }
}
