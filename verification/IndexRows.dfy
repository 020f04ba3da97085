/** The rows of an index in scan order, and the whole-index counts that ANALYZE
    reports about them.  Nothing here mentions the accumulator: these are the
    definitions its output is measured against. */
module IndexRows {
  import opened Arith

  /** The rowid of an ordinary table, or the key record of a WITHOUT ROWID table. */
  datatype Rowid = IntRowid(value: int) | KeyRecord(bytes: seq<int>)

  /** One index entry.  Each column value stands for its rank in the column's order. */
  datatype Row = Row(key: seq<int>, rowid: Rowid)

  /** The left-most column in which two keys differ, or their length if they are equal. */
  function Diff(a: seq<int>, b: seq<int>): (d: nat)
    requires |a| == |b|
    ensures d <= |a|
    ensures a[..d] == b[..d]
    ensures d < |a| ==> a[d] != b[d]
  {
    if |a| == 0 || a[0] != b[0] then 0
    else
      var d := 1 + Diff(a[1..], b[1..]);
      assert a[..d] == [a[0]] + a[1..][..d - 1];
      assert b[..d] == [b[0]] + b[1..][..d - 1];
      d
  }

  lemma {:induction false} DiffUnique(a: seq<int>, b: seq<int>, d: nat)
    requires |a| == |b| && d <= |a|
    requires a[..d] == b[..d]
    requires d < |a| ==> a[d] != b[d]
    ensures Diff(a, b) == d
  {
  }

  predicate LexLess(a: seq<int>, b: seq<int>)
    requires |a| == |b|
  {
    var d := Diff(a, b);
    d < |a| && a[d] < b[d]
  }

  lemma LexLessAsymmetric(a: seq<int>, b: seq<int>)
    requires |a| == |b|
    ensures !(LexLess(a, b) && LexLess(b, a))
    ensures LexLess(a, b) ==> a != b
  {
  }

  lemma LexLessTransitive(a: seq<int>, b: seq<int>, c: seq<int>)
    requires |a| == |b| == |c|
    requires LexLess(a, b) && LexLess(b, c)
    ensures LexLess(a, c)
  {
  }

  /** A scan of an index with nCol columns: keys of that width in strictly increasing order. */
  ghost predicate IsIndex(nCol: nat, rows: seq<Row>) {
    && nCol > 0
    && (forall i | 0 <= i < |rows| :: |rows[i].key| == nCol)
    && (forall i, j {:trigger LexLess(rows[i].key, rows[j].key)} | 0 <= i < j < |rows| ::
        LexLess(rows[i].key, rows[j].key))
  }

  /** The prefix of row r that ends in column j. */
  function Prefix(rows: seq<Row>, r: nat, j: nat): seq<int>
    requires r < |rows| && j < |rows[r].key|
  {
    rows[r].key[..j + 1]
  }

  ghost predicate SameGroup(nCol: nat, rows: seq<Row>, r: nat, s: nat, j: nat)
    requires IsIndex(nCol, rows) && r < |rows| && s < |rows| && j < nCol
  {
    Prefix(rows, r, j) == Prefix(rows, s, j)
  }

  ghost function EqSet(nCol: nat, rows: seq<Row>, r: nat, j: nat): set<nat>
    requires IsIndex(nCol, rows) && r < |rows| && j < nCol
  {
    set m | 0 <= m < |rows| && Prefix(rows, m, j) == Prefix(rows, r, j)
  }

  ghost function LtSet(nCol: nat, rows: seq<Row>, r: nat, j: nat): set<nat>
    requires IsIndex(nCol, rows) && r < |rows| && j < nCol
  {
    set m | 0 <= m < |rows| && LexLess(Prefix(rows, m, j), Prefix(rows, r, j))
  }

  ghost function LtPrefixes(nCol: nat, rows: seq<Row>, r: nat, j: nat): set<seq<int>>
    requires IsIndex(nCol, rows) && r < |rows| && j < nCol
  {
    set m | 0 <= m < |rows| && LexLess(Prefix(rows, m, j), Prefix(rows, r, j)) :: Prefix(rows, m, j)
  }

  ghost function Prefixes(nCol: nat, rows: seq<Row>, j: nat): set<seq<int>>
    requires IsIndex(nCol, rows) && j < nCol
  {
    set m | 0 <= m < |rows| :: Prefix(rows, m, j)
  }

  /** The number of rows that share row r's prefix through column j. */
  ghost function NEq(nCol: nat, rows: seq<Row>, r: nat, j: nat): nat
    requires IsIndex(nCol, rows) && r < |rows| && j < nCol
  {
    |EqSet(nCol, rows, r, j)|
  }

  /** The number of rows with a smaller prefix. */
  ghost function NLt(nCol: nat, rows: seq<Row>, r: nat, j: nat): nat
    requires IsIndex(nCol, rows) && r < |rows| && j < nCol
  {
    |LtSet(nCol, rows, r, j)|
  }

  /** The number of distinct smaller prefixes. */
  ghost function NDLt(nCol: nat, rows: seq<Row>, r: nat, j: nat): nat
    requires IsIndex(nCol, rows) && r < |rows| && j < nCol
  {
    |LtPrefixes(nCol, rows, r, j)|
  }

  /** The number of distinct prefixes through column j in the whole index. */
  ghost function NDistinct(nCol: nat, rows: seq<Row>, j: nat): nat
    requires IsIndex(nCol, rows) && j < nCol
  {
    |Prefixes(nCol, rows, j)|
  }

  // ---- groups are contiguous ----

  lemma SameGroupShorter(nCol: nat, rows: seq<Row>, r: nat, s: nat, i: nat, j: nat)
    requires IsIndex(nCol, rows) && r < |rows| && s < |rows| && i <= j < nCol
    requires SameGroup(nCol, rows, r, s, j)
    ensures SameGroup(nCol, rows, r, s, i)
  {
  }

  lemma ApartDeeper(nCol: nat, rows: seq<Row>, r: nat, s: nat, i: nat, j: nat)
    requires IsIndex(nCol, rows) && r < |rows| && s < |rows| && i <= j < nCol
    requires !SameGroup(nCol, rows, r, s, i)
    ensures !SameGroup(nCol, rows, r, s, j)
  {
  }

  lemma PrefixesSorted(nCol: nat, rows: seq<Row>, r: nat, s: nat, j: nat)
    requires IsIndex(nCol, rows) && r <= s < |rows| && j < nCol
    ensures SameGroup(nCol, rows, r, s, j) || LexLess(Prefix(rows, r, j), Prefix(rows, s, j))
  {
    if r < s {
      var a, b := rows[r].key, rows[s].key;
      assert LexLess(rows[r].key, rows[s].key);
      var d := Diff(a, b);
      if d <= j {
        assert a[..j + 1][..d] == a[..d] == b[..d] == b[..j + 1][..d];
        DiffUnique(a[..j + 1], b[..j + 1], d);
      } else {
        assert a[..j + 1] == a[..d][..j + 1];
        assert b[..j + 1] == b[..d][..j + 1];
      }
    }
  }

  /** In a sorted scan a prefix is smaller exactly when it comes earlier and differs. */
  lemma SmallerIsEarlier(nCol: nat, rows: seq<Row>, m: nat, r: nat, j: nat)
    requires IsIndex(nCol, rows) && m < |rows| && r < |rows| && j < nCol
    ensures LexLess(Prefix(rows, m, j), Prefix(rows, r, j)) <==> m < r && !SameGroup(nCol, rows, m, r, j)
  {
    LexLessAsymmetric(Prefix(rows, m, j), Prefix(rows, r, j));
    if m <= r {
      PrefixesSorted(nCol, rows, m, r, j);
    } else {
      PrefixesSorted(nCol, rows, r, m, j);
    }
  }

  lemma GroupsContiguous(nCol: nat, rows: seq<Row>, r: nat, m: nat, s: nat, j: nat)
    requires IsIndex(nCol, rows) && r <= m <= s < |rows| && j < nCol
    requires SameGroup(nCol, rows, r, s, j)
    ensures SameGroup(nCol, rows, m, s, j)
  {
    PrefixesSorted(nCol, rows, r, m, j);
    PrefixesSorted(nCol, rows, m, s, j);
    LexLessAsymmetric(Prefix(rows, r, j), Prefix(rows, m, j));
  }

  lemma WholeKeyIsUnique(nCol: nat, rows: seq<Row>, r: nat, s: nat)
    requires IsIndex(nCol, rows) && r < |rows| && s < |rows|
    requires SameGroup(nCol, rows, r, s, nCol - 1)
    ensures r == s
  {
    assert rows[r].key == Prefix(rows, r, nCol - 1) && rows[s].key == Prefix(rows, s, nCol - 1);
    if r < s {
      LexLessAsymmetric(rows[r].key, rows[s].key);
    } else if s < r {
      LexLessAsymmetric(rows[s].key, rows[r].key);
    }
  }

  // ---- cardinalities ----

  lemma SubsetCard<T>(a: set<T>, b: set<T>)
    requires a <= b
    ensures |a| <= |b|
  {
    assert |b| == |a| + |b - a| by { assert b == a + (b - a); }
  }

  function Below(n: nat): (s: set<nat>)
    ensures |s| == n
    ensures forall m: nat :: m in s <==> m < n
  {
    if n == 0 then {} else Below(n - 1) + {n - 1}
  }

  /** For the full key the rows below row r are exactly the r rows before it. */
  lemma RowIndexIsNLt(nCol: nat, rows: seq<Row>, r: nat)
    requires IsIndex(nCol, rows) && r < |rows|
    ensures NLt(nCol, rows, r, nCol - 1) == r
    ensures NEq(nCol, rows, r, nCol - 1) == 1
  {
    var lt, eq := LtSet(nCol, rows, r, nCol - 1), EqSet(nCol, rows, r, nCol - 1);
    forall m: nat | m < |rows|
      ensures (m in lt <==> m < r) && (m in eq <==> m == r)
    {
      SmallerIsEarlier(nCol, rows, m, r, nCol - 1);
      if SameGroup(nCol, rows, m, r, nCol - 1) {
        WholeKeyIsUnique(nCol, rows, m, r);
      }
    }
    assert lt == Below(r);
    assert eq == {r};
  }

  lemma NEqPositive(nCol: nat, rows: seq<Row>, r: nat, j: nat)
    requires IsIndex(nCol, rows) && r < |rows| && j < nCol
    ensures NEq(nCol, rows, r, j) > 0
  {
    assert r in EqSet(nCol, rows, r, j);
  }

  /** Longer prefixes have smaller groups. */
  lemma NEqAntitone(nCol: nat, rows: seq<Row>, r: nat, i: nat, j: nat)
    requires IsIndex(nCol, rows) && r < |rows| && i <= j < nCol
    ensures NEq(nCol, rows, r, j) <= NEq(nCol, rows, r, i)
  {
    forall m | m in EqSet(nCol, rows, r, j)
      ensures m in EqSet(nCol, rows, r, i)
    {
      SameGroupShorter(nCol, rows, m, r, i, j);
    }
    SubsetCard(EqSet(nCol, rows, r, j), EqSet(nCol, rows, r, i));
  }

  lemma NEqOfGroup(nCol: nat, rows: seq<Row>, r: nat, s: nat, j: nat)
    requires IsIndex(nCol, rows) && r < |rows| && s < |rows| && j < nCol
    requires SameGroup(nCol, rows, r, s, j)
    ensures NEq(nCol, rows, r, j) == NEq(nCol, rows, s, j)
  {
  }

  // ---- appending one row to the scan ----

  /** The scan moves on to one more row. */
  ghost predicate Extends(nCol: nat, rows: seq<Row>, row: Row) {
    |rows| > 0 && |row.key| == nCol && IsIndex(nCol, rows) && IsIndex(nCol, rows + [row])
  }

  lemma ExtendsAscends(nCol: nat, rows: seq<Row>, row: Row)
    requires Extends(nCol, rows, row)
    ensures LexLess(rows[|rows| - 1].key, row.key) && Diff(rows[|rows| - 1].key, row.key) < nCol
  {
    var rows', n := rows + [row], |rows|;
    assert LexLess(rows'[n - 1].key, rows'[n].key);
  }

  lemma AppendIsIndex(nCol: nat, rows: seq<Row>, row: Row)
    requires IsIndex(nCol, rows) && |row.key| == nCol
    requires |rows| > 0 ==> LexLess(rows[|rows| - 1].key, row.key)
    ensures IsIndex(nCol, rows + [row])
  {
    var rows' := rows + [row];
    forall i, j | 0 <= i < j < |rows'|
      ensures LexLess(rows'[i].key, rows'[j].key)
    {
      if j == |rows| && i < |rows| - 1 {
        LexLessTransitive(rows[i].key, rows[|rows| - 1].key, row.key);
      }
    }
  }

  /** The new row continues the groups left of the changed column and starts the others. */
  lemma NewRowGroup(nCol: nat, rows: seq<Row>, row: Row, r: nat, j: nat)
    requires Extends(nCol, rows, row) && r < |rows| && j < nCol
    ensures var d := Diff(rows[|rows| - 1].key, row.key);
            SameGroup(nCol, rows + [row], r, |rows|, j) <==>
            j < d && SameGroup(nCol, rows, r, |rows| - 1, j)
  {
    var n, rows' := |rows|, rows + [row];
    var a, b := rows[n - 1].key, row.key;
    var d := Diff(a, b);
    if j < d {
      assert a[..j + 1] == a[..d][..j + 1];
      assert b[..j + 1] == b[..d][..j + 1];
    } else {
      assert d < nCol by {
        assert LexLess(rows'[n - 1].key, rows'[n].key);
      }
      assert a[..j + 1][d] != b[..j + 1][d];
      if SameGroup(nCol, rows', r, n, j) {
        GroupsContiguous(nCol, rows', r, n - 1, n, j);
      }
    }
  }

  /** Rows already scanned keep their position, and a group that the new row does not join is final. */
  lemma OldRowCounts(nCol: nat, rows: seq<Row>, row: Row, r: nat, j: nat)
    requires Extends(nCol, rows, row) && r < |rows| && j < nCol
    ensures NLt(nCol, rows + [row], r, j) == NLt(nCol, rows, r, j)
    ensures NDLt(nCol, rows + [row], r, j) == NDLt(nCol, rows, r, j)
    ensures !SameGroup(nCol, rows + [row], r, |rows|, j) ==>
              NEq(nCol, rows + [row], r, j) == NEq(nCol, rows, r, j)
  {
    var n, rows' := |rows|, rows + [row];
    assert forall m | 0 <= m < n :: Prefix(rows', m, j) == Prefix(rows, m, j);
    SmallerIsEarlier(nCol, rows', n, r, j);
    assert LtSet(nCol, rows', r, j) == LtSet(nCol, rows, r, j);
    assert LtPrefixes(nCol, rows', r, j) == LtPrefixes(nCol, rows, r, j);
    if !SameGroup(nCol, rows', r, n, j) {
      assert EqSet(nCol, rows', r, j) == EqSet(nCol, rows, r, j);
    }
  }

  /** Left of the changed column the new row joins the group of the row before it. */
  lemma NewRowContinues(nCol: nat, rows: seq<Row>, row: Row, j: nat)
    requires Extends(nCol, rows, row) && j < nCol
    requires j < Diff(rows[|rows| - 1].key, row.key)
    ensures NEq(nCol, rows + [row], |rows|, j) == NEq(nCol, rows, |rows| - 1, j) + 1
    ensures NLt(nCol, rows + [row], |rows|, j) == NLt(nCol, rows, |rows| - 1, j)
    ensures NDLt(nCol, rows + [row], |rows|, j) == NDLt(nCol, rows, |rows| - 1, j)
  {
    var n, rows' := |rows|, rows + [row];
    NewRowGroup(nCol, rows, row, n - 1, j);
    assert forall m | 0 <= m < n :: Prefix(rows', m, j) == Prefix(rows, m, j);
    LexLessAsymmetric(Prefix(rows', n, j), Prefix(rows', n, j));
    assert EqSet(nCol, rows', n, j) == EqSet(nCol, rows, n - 1, j) + {n};
    assert LtSet(nCol, rows', n, j) == LtSet(nCol, rows, n - 1, j);
    assert LtPrefixes(nCol, rows', n, j) == LtPrefixes(nCol, rows, n - 1, j);
  }

  lemma NewRowAbove(nCol: nat, rows: seq<Row>, row: Row, m: nat, j: nat)
    requires Extends(nCol, rows, row) && m < |rows| && j < nCol
    requires j >= Diff(rows[|rows| - 1].key, row.key)
    ensures !SameGroup(nCol, rows + [row], m, |rows|, j)
    ensures LexLess(Prefix(rows + [row], m, j), Prefix(rows + [row], |rows|, j))
    ensures Prefix(rows + [row], m, j) == Prefix(rows, m, j)
  {
    NewRowGroup(nCol, rows, row, m, j);
    SmallerIsEarlier(nCol, rows + [row], m, |rows|, j);
  }

  /** From the changed column on the new row starts a group of its own. */
  lemma NewRowStarts(nCol: nat, rows: seq<Row>, row: Row, j: nat)
    requires Extends(nCol, rows, row) && j < nCol
    requires j >= Diff(rows[|rows| - 1].key, row.key)
    ensures NEq(nCol, rows + [row], |rows|, j) == 1
    ensures NLt(nCol, rows + [row], |rows|, j) == |rows|
    ensures NDLt(nCol, rows + [row], |rows|, j) == NDLt(nCol, rows, |rows| - 1, j) + 1
  {
    var n, rows' := |rows|, rows + [row];
    var lt, eq := LtSet(nCol, rows', n, j), EqSet(nCol, rows', n, j);
    forall m: nat | m < |rows'|
      ensures (m in lt <==> m < n) && (m in eq <==> m == n)
    {
      if m < n {
        NewRowAbove(nCol, rows, row, m, j);
      } else {
        LexLessAsymmetric(Prefix(rows', n, j), Prefix(rows', n, j));
      }
    }
    assert eq == {n};
    assert lt == Below(n);
    NewRowLtPrefixes(nCol, rows, row, j);
    DistinctUpToLast(nCol, rows, j);
  }

  lemma NewRowLtPrefixes(nCol: nat, rows: seq<Row>, row: Row, j: nat)
    requires Extends(nCol, rows, row) && j < nCol
    requires j >= Diff(rows[|rows| - 1].key, row.key)
    ensures LtPrefixes(nCol, rows + [row], |rows|, j) == Prefixes(nCol, rows, j)
  {
    var n, rows' := |rows|, rows + [row];
    var lt, all := LtPrefixes(nCol, rows', n, j), Prefixes(nCol, rows, j);
    forall p | p in all
      ensures p in lt
    {
      var m :| 0 <= m < n && Prefix(rows, m, j) == p;
      NewRowAbove(nCol, rows, row, m, j);
    }
    forall p | p in lt
      ensures p in all
    {
      var m :| 0 <= m < |rows'| && LexLess(Prefix(rows', m, j), Prefix(rows', n, j)) && Prefix(rows', m, j) == p;
      LexLessAsymmetric(Prefix(rows', n, j), Prefix(rows', n, j));
      assert m < n;
      NewRowAbove(nCol, rows, row, m, j);
      assert Prefix(rows, m, j) == p;
    }
  }

  /** Everything below or equal to the last row is everything. */
  lemma LastRowTotals(nCol: nat, rows: seq<Row>, j: nat)
    requires IsIndex(nCol, rows) && |rows| > 0 && j < nCol
    ensures NLt(nCol, rows, |rows| - 1, j) + NEq(nCol, rows, |rows| - 1, j) == |rows|
  {
    var c := |rows| - 1;
    var lt, eq := LtSet(nCol, rows, c, j), EqSet(nCol, rows, c, j);
    forall m: nat | m < |rows|
      ensures m in lt <==> m !in eq
    {
      BelowOrInLastGroup(nCol, rows, m, j);
    }
    ComplementCard(lt, eq, |rows|);
  }

  lemma BelowOrInLastGroup(nCol: nat, rows: seq<Row>, m: nat, j: nat)
    requires IsIndex(nCol, rows) && m < |rows| && j < nCol
    ensures m in LtSet(nCol, rows, |rows| - 1, j) <==> m !in EqSet(nCol, rows, |rows| - 1, j)
  {
    SmallerIsEarlier(nCol, rows, m, |rows| - 1, j);
  }

  lemma ComplementCard(a: set<nat>, b: set<nat>, n: nat)
    requires forall m | m in a || m in b :: m < n
    requires forall m: nat | m < n :: m in a <==> m !in b
    ensures |a| + |b| == n
  {
    assert a + b == Below(n);
    assert a !! b;
  }

  lemma DistinctUpToLast(nCol: nat, rows: seq<Row>, j: nat)
    requires IsIndex(nCol, rows) && |rows| > 0 && j < nCol
    ensures NDistinct(nCol, rows, j) == NDLt(nCol, rows, |rows| - 1, j) + 1
  {
    var c := |rows| - 1;
    var all := Prefixes(nCol, rows, j);
    var lt := LtPrefixes(nCol, rows, c, j);
    forall m: nat | m < |rows|
      ensures Prefix(rows, m, j) in lt || Prefix(rows, m, j) == Prefix(rows, c, j)
    {
      SmallerIsEarlier(nCol, rows, m, c, j);
    }
    LexLessAsymmetric(Prefix(rows, c, j), Prefix(rows, c, j));
    assert Prefix(rows, c, j) !in lt;
    assert all == lt + {Prefix(rows, c, j)};
  }

  /** A longer prefix has at least as many distinct values. */
  lemma DistinctMonotone(nCol: nat, rows: seq<Row>, i: nat, j: nat)
    requires IsIndex(nCol, rows) && i <= j < nCol
    ensures NDistinct(nCol, rows, i) <= NDistinct(nCol, rows, j)
  {
    var ps, qs := Prefixes(nCol, rows, i), Prefixes(nCol, rows, j);
    forall p | p in ps
      ensures exists q :: q in qs && Cut(q, i + 1) == p
    {
      var m :| 0 <= m < |rows| && Prefix(rows, m, i) == p;
      var q := Prefix(rows, m, j);
      assert q in qs && Cut(q, i + 1) == p;
    }
    ImageCard(ps, qs, i + 1);
  }

  /** There are at most as many distinct prefixes as rows. */
  lemma {:induction false} DistinctAtMostRows(nCol: nat, rows: seq<Row>, j: nat)
    requires IsIndex(nCol, rows) && j < nCol
    ensures NDistinct(nCol, rows, j) <= |rows|
    decreases |rows|
  {
    if rows == [] {
      assert Prefixes(nCol, rows, j) == {};
    } else {
      var n := |rows| - 1;
      var before := rows[..n];
      assert IsIndex(nCol, before);
      DistinctAtMostRows(nCol, before, j);
      assert forall m | 0 <= m < n :: Prefix(rows, m, j) == Prefix(before, m, j);
      SubsetCard(Prefixes(nCol, rows, j), Prefixes(nCol, before, j) + {Prefix(rows, n, j)});
    }
  }

  /** No count exceeds the number of rows. */
  lemma CountsAtMostRows(nCol: nat, rows: seq<Row>, r: nat, j: nat)
    requires IsIndex(nCol, rows) && r < |rows| && j < nCol
    ensures NEq(nCol, rows, r, j) <= |rows|
    ensures NLt(nCol, rows, r, j) <= |rows|
    ensures NDLt(nCol, rows, r, j) <= |rows|
  {
    SubsetCard(EqSet(nCol, rows, r, j), Below(|rows|));
    SubsetCard(LtSet(nCol, rows, r, j), Below(|rows|));
    SubsetCard(LtPrefixes(nCol, rows, r, j), Prefixes(nCol, rows, j));
    DistinctAtMostRows(nCol, rows, j);
  }

  function Cut(s: seq<int>, k: nat): seq<int> {
    if k <= |s| then s[..k] else s
  }

  lemma {:induction false} ImageCard(ps: set<seq<int>>, qs: set<seq<int>>, k: nat)
    requires forall p | p in ps :: exists q :: q in qs && Cut(q, k) == p
    ensures |ps| <= |qs|
    decreases ps
  {
    if ps != {} {
      var p :| p in ps;
      var q :| q in qs && Cut(q, k) == p;
      forall p' | p' in ps - {p}
        ensures exists q' :: q' in qs - {q} && Cut(q', k) == p'
      {
        var q' :| q' in qs && Cut(q', k) == p';
        assert q' in qs - {q};
      }
      ImageCard(ps - {p}, qs - {q}, k);
    }
  }

  // ---- the lists that are reported ----

  ghost function EqList(nCol: nat, rows: seq<Row>, r: nat): (xs: seq<nat>)
    requires IsIndex(nCol, rows) && r < |rows|
  {
    seq(nCol, j requires 0 <= j < nCol => NEq(nCol, rows, r, j))
  }

  ghost function LtList(nCol: nat, rows: seq<Row>, r: nat): (xs: seq<nat>)
    requires IsIndex(nCol, rows) && r < |rows|
  {
    seq(nCol, j requires 0 <= j < nCol => NLt(nCol, rows, r, j))
  }

  ghost function DLtList(nCol: nat, rows: seq<Row>, r: nat): (xs: seq<nat>)
    requires IsIndex(nCol, rows) && r < |rows|
  {
    seq(nCol, j requires 0 <= j < nCol => NDLt(nCol, rows, r, j))
  }

  /** e is n/d rounded up. */
  predicate IsCeiling(e: nat, n: nat, d: nat) {
    e * d >= n && (e > 0 ==> (e - 1) * d < n)
  }

  function RoundedUp(n: nat, d: nat): (e: nat)
    requires d > 0
    ensures IsCeiling(e, n, d)
  {
    var m := n + d - 1;
    assert m == d * (m / d) + m % d;
    assert (m / d - 1) * d == m / d * d - d;
    m / d
  }

  lemma CeilingAntitone(e: nat, f: nat, n: nat, d: nat, c: nat)
    requires 0 < d <= c && IsCeiling(e, n, d) && IsCeiling(f, n, c)
    ensures f <= e
  {
    if f > 0 {
      MulMonotone(c, e, f - 1);
      MulMonotone(e, d, c);
      assert c * e == e * c && c * (f - 1) == (f - 1) * c;
    }
  }

  /** The stat1 estimates: the average group size of each prefix, rounded up. */
  ghost predicate IsEstimates(nCol: nat, rows: seq<Row>, xs: seq<nat>)
    requires IsIndex(nCol, rows) && |xs| <= nCol
  {
    forall i | 0 <= i < |xs| :: IsCeiling(xs[i], |rows|, NDistinct(nCol, rows, i))
  }

  /** The estimates of the first n columns. */
  ghost function EstimateList(nCol: nat, rows: seq<Row>, n: nat): (xs: seq<nat>)
    requires IsIndex(nCol, rows) && |rows| > 0 && n <= nCol
    ensures |xs| == n && IsEstimates(nCol, rows, xs)
  {
    if n == 0 then []
    else
      DistinctUpToLast(nCol, rows, n - 1);
      EstimateList(nCol, rows, n - 1) + [RoundedUp(|rows|, NDistinct(nCol, rows, n - 1))]
  }

  /** A longer prefix never gets a larger estimate. */
  lemma EstimatesDescend(nCol: nat, rows: seq<Row>, xs: seq<nat>, i: nat, j: nat)
    requires IsIndex(nCol, rows) && |rows| > 0 && |xs| <= nCol && IsEstimates(nCol, rows, xs)
    requires i <= j < |xs|
    ensures xs[j] <= xs[i]
  {
    DistinctMonotone(nCol, rows, i, j);
    DistinctUpToLast(nCol, rows, i);
    CeilingAntitone(xs[i], xs[j], |rows|, NDistinct(nCol, rows, i), NDistinct(nCol, rows, j));
  }
}
