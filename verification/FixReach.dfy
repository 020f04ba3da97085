/** Which nodes of a parse tree the fixer has to look at: those that can be reached through the
    links between nodes, field by field. */
module FixReach {
  import opened Common
  import opened DbFixer

  /** Any part of a parse tree. */
  datatype Part =
    | ExprPart(e: Expr)
    | OperandsPart(x: Operands)
    | ListPart(list: ExprList)
    | SourcePart(src: Source)
    | SourcesPart(srcs: SrcList)
    | SelectPart(sel: Select)
    | StepPart(step: TriggerStep)

  /** The parts that a part links to.  A node of a token alone has no other fields. */
  function Links(p: Part): seq<Part> {
    match p
    case ExprPart(e) =>
      if e.Node? && !e.tokenOnly then [OperandsPart(e.x), ExprPart(e.pRight), ExprPart(e.pLeft)] else []
    case OperandsPart(x) => if x.Subquery? then [SelectPart(x.pSelect)] else [ListPart(x.pList)]
    case ListPart(list) =>
      if list.Exprs? then seq(|list.a|, i requires 0 <= i < |list.a| => ExprPart(list.a[i])) else []
    case SourcePart(src) => [SelectPart(src.pSelect), ExprPart(src.pOn)]
    case SourcesPart(srcs) =>
      if srcs.Sources? then seq(|srcs.a|, i requires 0 <= i < |srcs.a| => SourcePart(srcs.a[i])) else []
    case SelectPart(q) =>
      if q.Query? then
        [ListPart(q.pEList), SourcesPart(q.pSrc), ExprPart(q.pWhere), ListPart(q.pGroupBy), ExprPart(q.pHaving),
         ListPart(q.pOrderBy), ExprPart(q.pLimit), ExprPart(q.pOffset), SelectPart(q.pPrior)]
      else []
    case StepPart(s) =>
      if s.Step? then [SelectPart(s.target), ExprPart(s.pWhere), ListPart(s.pExprList), StepPart(s.pNext)] else []
  }

  /** The part itself holds this cell. */
  predicate Holds(p: Part, v: Visit) {
    match p
    case ExprPart(e) => e.Node? && v == VisitExpr(e.cell)
    case SourcePart(src) => v == VisitSource(src.item)
    case _ => false
  }

  /** Following n links leads to a part that holds the cell. */
  predicate ReachesIn(p: Part, v: Visit, n: nat)
    decreases n
  {
    if n == 0 then Holds(p, v)
    else exists i | 0 <= i < |Links(p)| :: ReachesIn(Links(p)[i], v, n - 1)
  }

  /** The cell can be reached. */
  ghost predicate Reaches(p: Part, v: Visit) {
    exists n: nat :: ReachesIn(p, v, n)
  }

  /** The cells that the walkers visit. */
  ghost function Visits(p: Part): seq<Visit> {
    match p
    case ExprPart(e) => ExprVisits(e)
    case OperandsPart(x) => OperandVisits(x)
    case ListPart(list) => ListVisits(list)
    case SourcePart(src) => SourceVisits(src)
    case SourcesPart(srcs) => SrcListVisits(srcs)
    case SelectPart(q) => SelectVisits(q)
    case StepPart(s) => TriggerVisits(s)
  }

  // ---- what can be reached is visited ----

  lemma {:induction false} ItemIsVisited(a: seq<Expr>, i: nat, v: Visit)
    requires i < |a| && v in ExprVisits(a[i])
    ensures v in ItemVisits(a)
  {
    if i > 0 { ItemIsVisited(a[1..], i - 1, v); }
  }

  lemma {:induction false} SourceIsVisited(a: seq<Source>, i: nat, v: Visit)
    requires i < |a| && v in SourceVisits(a[i])
    ensures v in SourcesVisits(a)
  {
    if i > 0 { SourceIsVisited(a[1..], i - 1, v); }
  }

  lemma LinkIsVisited(p: Part, i: nat, v: Visit)
    requires i < |Links(p)| && v in Visits(Links(p)[i])
    ensures v in Visits(p)
  {
    match p {
      case ExprPart(e) => assert ExprVisits(e) == NodeVisits(e) + ExprVisits(e.pLeft);
      case ListPart(list) => ItemIsVisited(list.a, i, v);
      case SourcesPart(srcs) => SourceIsVisited(srcs.a, i, v);
      case SelectPart(q) =>
        assert SelectVisits(q) == FromWhereVisits(q) + HavingLimitVisits(q) + SelectVisits(q.pPrior);
      case StepPart(s) => assert TriggerVisits(s) == StepVisits(s) + TriggerVisits(s.pNext);
      case _ =>
    }
  }

  lemma HeldIsVisited(p: Part, v: Visit)
    requires Holds(p, v)
    ensures v in Visits(p)
  {
    match p {
      case ExprPart(e) => assert v in NodeVisits(e);
      case SourcePart(src) => assert v in SourceVisits(src);
    }
  }

  lemma {:induction false} ReachedIsVisited(p: Part, v: Visit, n: nat)
    requires ReachesIn(p, v, n)
    ensures v in Visits(p)
    decreases n
  {
    if n == 0 {
      HeldIsVisited(p, v);
    } else {
      var i: nat :| i < |Links(p)| && ReachesIn(Links(p)[i], v, n - 1);
      ReachedIsVisited(Links(p)[i], v, n - 1);
      LinkIsVisited(p, i, v);
    }
  }

  // ---- what is visited can be reached ----

  lemma ReachedThrough(p: Part, i: nat, v: Visit)
    requires i < |Links(p)| && Reaches(Links(p)[i], v)
    ensures Reaches(p, v)
  {
    var n: nat :| ReachesIn(Links(p)[i], v, n);
    assert ReachesIn(p, v, n + 1);
  }

  lemma HeldIsReached(p: Part, v: Visit)
    requires Holds(p, v)
    ensures Reaches(p, v)
  {
    assert ReachesIn(p, v, 0);
  }

  lemma {:induction false} VisitedExpr(e: Expr, v: Visit)
    requires v in ExprVisits(e)
    ensures Reaches(ExprPart(e), v)
    decreases e, 2
  {
    var p := ExprPart(e);
    if v == VisitExpr(e.cell) {
      HeldIsReached(p, v);
    } else if v in OperandVisits(e.x) {
      VisitedOperands(e.x, v);
      ReachedThrough(p, 0, v);
    } else if v in ExprVisits(e.pRight) {
      VisitedExpr(e.pRight, v);
      ReachedThrough(p, 1, v);
    } else {
      VisitedExpr(e.pLeft, v);
      ReachedThrough(p, 2, v);
    }
  }

  lemma {:induction false} VisitedOperands(x: Operands, v: Visit)
    requires v in OperandVisits(x)
    ensures Reaches(OperandsPart(x), v)
    decreases x, 1
  {
    match x {
      case Subquery(sel) => VisitedSelect(sel, v);
      case Arguments(list) => VisitedList(list, v);
    }
    ReachedThrough(OperandsPart(x), 0, v);
  }

  lemma {:induction false} ItemOf(a: seq<Expr>, v: Visit) returns (i: nat)
    requires v in ItemVisits(a)
    ensures i < |a| && v in ExprVisits(a[i])
  {
    if v in ExprVisits(a[0]) {
      i := 0;
    } else {
      i := ItemOf(a[1..], v);
      i := i + 1;
    }
  }

  lemma {:induction false} VisitedList(list: ExprList, v: Visit)
    requires v in ListVisits(list)
    ensures Reaches(ListPart(list), v)
    decreases list, 1
  {
    var i := ItemOf(list.a, v);
    VisitedExpr(list.a[i], v);
    ReachedThrough(ListPart(list), i, v);
  }

  lemma {:induction false} SourceOf(a: seq<Source>, v: Visit) returns (i: nat)
    requires v in SourcesVisits(a)
    ensures i < |a| && v in SourceVisits(a[i])
  {
    if v in SourceVisits(a[0]) {
      i := 0;
    } else {
      i := SourceOf(a[1..], v);
      i := i + 1;
    }
  }

  lemma {:induction false} VisitedSources(srcs: SrcList, v: Visit)
    requires v in SrcListVisits(srcs)
    ensures Reaches(SourcesPart(srcs), v)
    decreases srcs, 1
  {
    var i := SourceOf(srcs.a, v);
    VisitedSource(srcs.a[i], v);
    ReachedThrough(SourcesPart(srcs), i, v);
  }

  lemma {:induction false} VisitedSource(src: Source, v: Visit)
    requires v in SourceVisits(src)
    ensures Reaches(SourcePart(src), v)
    decreases src, 1
  {
    var p := SourcePart(src);
    if v == VisitSource(src.item) {
      HeldIsReached(p, v);
    } else if v in SelectVisits(src.pSelect) {
      VisitedSelect(src.pSelect, v);
      ReachedThrough(p, 0, v);
    } else {
      VisitedExpr(src.pOn, v);
      ReachedThrough(p, 1, v);
    }
  }

  lemma {:induction false} VisitedSelect(q: Select, v: Visit)
    requires v in SelectVisits(q)
    ensures Reaches(SelectPart(q), v)
    decreases q, 2
  {
    var p := SelectPart(q);
    if v in FromWhereVisits(q) {
      VisitedFromWhere(q, v);
    } else if v in HavingLimitVisits(q) {
      VisitedHavingLimit(q, v);
    } else {
      VisitedSelect(q.pPrior, v);
      ReachedThrough(p, 8, v);
    }
  }

  lemma {:induction false} VisitedFromWhere(q: Select, v: Visit)
    requires q.Query? && v in FromWhereVisits(q)
    ensures Reaches(SelectPart(q), v)
    decreases q, 1
  {
    var p := SelectPart(q);
    if v in ListVisits(q.pEList) {
      VisitedList(q.pEList, v);
      ReachedThrough(p, 0, v);
    } else if v in SrcListVisits(q.pSrc) {
      VisitedSources(q.pSrc, v);
      ReachedThrough(p, 1, v);
    } else if v in ExprVisits(q.pWhere) {
      VisitedExpr(q.pWhere, v);
      ReachedThrough(p, 2, v);
    } else {
      VisitedList(q.pGroupBy, v);
      ReachedThrough(p, 3, v);
    }
  }

  lemma {:induction false} VisitedHavingLimit(q: Select, v: Visit)
    requires q.Query? && v in HavingLimitVisits(q)
    ensures Reaches(SelectPart(q), v)
    decreases q, 1
  {
    var p := SelectPart(q);
    if v in ExprVisits(q.pHaving) {
      VisitedExpr(q.pHaving, v);
      ReachedThrough(p, 4, v);
    } else if v in ListVisits(q.pOrderBy) {
      VisitedList(q.pOrderBy, v);
      ReachedThrough(p, 5, v);
    } else if v in ExprVisits(q.pLimit) {
      VisitedExpr(q.pLimit, v);
      ReachedThrough(p, 6, v);
    } else {
      VisitedExpr(q.pOffset, v);
      ReachedThrough(p, 7, v);
    }
  }

  lemma {:induction false} VisitedStep(s: TriggerStep, v: Visit)
    requires v in TriggerVisits(s)
    ensures Reaches(StepPart(s), v)
  {
    var p := StepPart(s);
    if v in SelectVisits(s.target) {
      VisitedSelect(s.target, v);
      ReachedThrough(p, 0, v);
    } else if v in ExprVisits(s.pWhere) {
      VisitedExpr(s.pWhere, v);
      ReachedThrough(p, 1, v);
    } else if v in ListVisits(s.pExprList) {
      VisitedList(s.pExprList, v);
      ReachedThrough(p, 2, v);
    } else {
      VisitedStep(s.pNext, v);
      ReachedThrough(p, 3, v);
    }
  }

  /** The walkers visit exactly what can be reached. */
  lemma VisitedIffReached(p: Part, v: Visit)
    ensures v in Visits(p) <==> Reaches(p, v)
  {
    if Reaches(p, v) {
      var n: nat :| ReachesIn(p, v, n);
      ReachedIsVisited(p, v, n);
    } else if v in Visits(p) {
      match p {
        case ExprPart(e) => VisitedExpr(e, v);
        case OperandsPart(x) => VisitedOperands(x, v);
        case ListPart(list) => VisitedList(list, v);
        case SourcePart(src) => VisitedSource(src, v);
        case SourcesPart(srcs) => VisitedSources(srcs, v);
        case SelectPart(q) => VisitedSelect(q, v);
        case StepPart(s) => VisitedStep(s, v);
      }
    }
  }
}
