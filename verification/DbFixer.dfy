/** Pinning every table reference of a view, trigger or index to one database. */
module DbFixer {
  import opened Common

  /** Expression operators: the fixer looks for variables and turns them into NULL. */
  datatype Op = Variable | Null | Other(code: int)

  /** The parts of parse-tree nodes that the fixer overwrites.  All links between nodes stay. */
  class ExprCell {
    var op: Op
    constructor (op: Op)
      ensures this.op == op
    {
      this.op := op;
    }
  }

  class SourceCell {
    var zDatabase: Option<string>
    var pSchema: int
    constructor (zDatabase: Option<string>, pSchema: int)
      ensures this.zDatabase == zDatabase && this.pSchema == pSchema
    {
      this.zDatabase, this.pSchema := zDatabase, pSchema;
    }
  }

  datatype Expr =
    | NoExpr
    | Node(cell: ExprCell, tokenOnly: bool, x: Operands, pRight: Expr, pLeft: Expr)

  /** The union in an expression: a subquery or an argument list. */
  datatype Operands = Subquery(pSelect: Select) | Arguments(pList: ExprList)

  datatype ExprList = NoList | Exprs(a: seq<Expr>)

  datatype Source = Source(item: SourceCell, pSelect: Select, pOn: Expr)

  datatype SrcList = NoSources | Sources(a: seq<Source>)

  datatype Select =
    | NoSelect
    | Query(pEList: ExprList, pSrc: SrcList, pWhere: Expr, pGroupBy: ExprList, pHaving: Expr,
            pOrderBy: ExprList, pLimit: Expr, pOffset: Expr, pPrior: Select)

  datatype TriggerStep =
    | NoStep
    | Step(target: Select, pWhere: Expr, pExprList: ExprList, pNext: TriggerStep)

  // ---- what is visited, in order ----

  datatype Visit = VisitExpr(e: ExprCell) | VisitSource(s: SourceCell)

  ghost function ExprVisits(e: Expr): seq<Visit>
    decreases e, 2
  {
    match e
    case NoExpr => []
    case Node(_, tokenOnly, _, _, left) => NodeVisits(e) + if tokenOnly then [] else ExprVisits(left)
  }

  /** One expression node without its left operand. */
  ghost function NodeVisits(e: Expr): seq<Visit>
    requires e.Node?
    decreases e, 1
  {
    if e.tokenOnly then [VisitExpr(e.cell)]
    else [VisitExpr(e.cell)] + OperandVisits(e.x) + ExprVisits(e.pRight)
  }

  ghost function OperandVisits(x: Operands): seq<Visit>
    decreases x, 1
  {
    match x
    case Subquery(sel) => SelectVisits(sel)
    case Arguments(list) => ListVisits(list)
  }

  ghost function ListVisits(list: ExprList): seq<Visit>
    decreases list, 1
  {
    match list
    case NoList => []
    case Exprs(a) => ItemVisits(a)
  }

  ghost function ItemVisits(a: seq<Expr>): seq<Visit>
    decreases a, 0
  {
    if a == [] then [] else ExprVisits(a[0]) + ItemVisits(a[1..])
  }

  ghost function SourceVisits(src: Source): seq<Visit>
    decreases src, 1
  {
    [VisitSource(src.item)] + SelectVisits(src.pSelect) + ExprVisits(src.pOn)
  }

  ghost function SourcesVisits(a: seq<Source>): seq<Visit>
    decreases a, 0
  {
    if a == [] then [] else SourceVisits(a[0]) + SourcesVisits(a[1..])
  }

  ghost function SrcListVisits(list: SrcList): seq<Visit>
    decreases list, 1
  {
    match list
    case NoSources => []
    case Sources(a) => SourcesVisits(a)
  }

  /** One SELECT of a compound, without those before it. */
  ghost function QueryVisits(q: Select): seq<Visit>
    requires q.Query?
    decreases q, 1
  {
    FromWhereVisits(q) + HavingLimitVisits(q)
  }

  ghost function FromWhereVisits(q: Select): seq<Visit>
    requires q.Query?
    decreases q, 0
  {
    ListVisits(q.pEList) + SrcListVisits(q.pSrc) + ExprVisits(q.pWhere) + ListVisits(q.pGroupBy)
  }

  ghost function HavingLimitVisits(q: Select): seq<Visit>
    requires q.Query?
    decreases q, 0
  {
    ExprVisits(q.pHaving) + ListVisits(q.pOrderBy) + ExprVisits(q.pLimit) + ExprVisits(q.pOffset)
  }

  ghost function SelectVisits(sel: Select): seq<Visit>
    decreases sel, 2
  {
    match sel
    case NoSelect => []
    case Query(_, _, _, _, _, _, _, _, prior) => QueryVisits(sel) + SelectVisits(prior)
  }

  /** One step of a trigger, without those after it. */
  ghost function StepVisits(step: TriggerStep): seq<Visit>
    requires step.Step?
  {
    SelectVisits(step.target) + ExprVisits(step.pWhere) + ListVisits(step.pExprList)
  }

  ghost function TriggerVisits(step: TriggerStep): seq<Visit> {
    match step
    case NoStep => []
    case Step(_, _, _, next) =>
      StepVisits(step) + TriggerVisits(next)
  }

  // ---- what a visit does ----

  function LowerChar(c: char): char {
    if 'A' <= c <= 'Z' then ((c as int) + 32) as char else c
  }

  function Lower(s: string): string {
    seq(|s|, i requires 0 <= i < |s| => LowerChar(s[i]))
  }

  /** sqlite3StrICmp() finds no difference. */
  predicate SameName(a: string, b: string) {
    Lower(a) == Lower(b)
  }

  /** The database everything must refer to; whether only variables are of interest, as in the
      TEMP database; and whether the schema is being loaded. */
  datatype Rules = Rules(zDb: string, pSchema: int, bVarOnly: bool, initBusy: bool)

  /** The overwritable parts of some nodes. */
  datatype Mem = Mem(ops: map<ExprCell, Op>, sources: map<SourceCell, (Option<string>, int)>)

  ghost predicate Knows(m: Mem, v: Visit) {
    match v
    case VisitExpr(e) => e in m.ops
    case VisitSource(s) => s in m.sources
  }

  ghost predicate KnowsAll(m: Mem, vs: seq<Visit>) {
    forall i | 0 <= i < |vs| :: Knows(m, vs[i])
  }

  /** The visit finds nothing to object to. */
  ghost predicate Good(r: Rules, m: Mem, v: Visit)
    requires Knows(m, v)
  {
    match v
    case VisitExpr(e) => m.ops[e] == Variable ==> r.initBusy
    case VisitSource(s) => !r.bVarOnly && m.sources[s].0.Some? ==> SameName(m.sources[s].0.value, r.zDb)
  }

  /** What the visit leaves. */
  ghost function Visited(r: Rules, m: Mem, v: Visit): Mem
    requires Knows(m, v)
  {
    match v
    case VisitExpr(e) => if m.ops[e] == Variable then m.(ops := m.ops[e := Null]) else m
    case VisitSource(s) => if r.bVarOnly then m else m.(sources := m.sources[s := (None, r.pSchema)])
  }

  datatype Outcome = Outcome(mem: Mem, failed: bool)

  /** Visit after visit, until one objects. */
  ghost function Run(r: Rules, m: Mem, vs: seq<Visit>): (o: Outcome)
    requires KnowsAll(m, vs)
    ensures o.mem.ops.Keys == m.ops.Keys && o.mem.sources.Keys == m.sources.Keys
    decreases |vs|
  {
    if vs == [] then Outcome(m, false)
    else
      assert Knows(m, vs[0]);
      if !Good(r, m, vs[0]) then Outcome(m, true)
      else
        assert forall i | 0 <= i < |vs[1..]| :: vs[1..][i] == vs[i + 1];
        Run(r, Visited(r, m, vs[0]), vs[1..])
  }

  // ---- the fixer as a whole ----

  lemma KnowsParts(m: Mem, us: seq<Visit>, vs: seq<Visit>)
    ensures KnowsAll(m, us + vs) <==> KnowsAll(m, us) && KnowsAll(m, vs)
  {
    if KnowsAll(m, us + vs) {
      forall i | 0 <= i < |us|
        ensures Knows(m, us[i])
      {
        assert Knows(m, (us + vs)[i]);
      }
      forall i | 0 <= i < |vs|
        ensures Knows(m, vs[i])
      {
        assert Knows(m, (us + vs)[|us| + i]);
      }
    }
  }

  lemma KnowsSame(m: Mem, m': Mem, vs: seq<Visit>)
    requires m.ops.Keys == m'.ops.Keys && m.sources.Keys == m'.sources.Keys
    ensures KnowsAll(m, vs) == KnowsAll(m', vs)
  {
  }

  /** Visiting one list after the other. */
  lemma {:induction false} RunAppend(r: Rules, m: Mem, us: seq<Visit>, vs: seq<Visit>)
    requires KnowsAll(m, us) && KnowsAll(m, vs)
    ensures KnowsAll(m, us + vs) && KnowsAll(Run(r, m, us).mem, vs)
    ensures Run(r, m, us + vs) ==
            if Run(r, m, us).failed then Run(r, m, us) else Run(r, Run(r, m, us).mem, vs)
    decreases |us|
  {
    KnowsParts(m, us, vs);
    KnowsSame(m, Run(r, m, us).mem, vs);
    if us == [] {
      assert us + vs == vs;
    } else {
      assert Knows(m, us[0]) && us == [us[0]] + us[1..];
      assert (us + vs)[1..] == us[1..] + vs;
      if Good(r, m, us[0]) {
        var m1 := Visited(r, m, us[0]);
        KnowsParts(m, [us[0]], us[1..]);
        KnowsSame(m, m1, us[1..]);
        KnowsSame(m, m1, vs);
        RunAppend(r, m1, us[1..], vs);
      }
    }
  }

  /** A visit that did not object changes no other visit's verdict. */
  lemma VerdictKept(r: Rules, m: Mem, u: Visit, v: Visit)
    requires Knows(m, u) && Knows(m, v) && Good(r, m, u)
    ensures Good(r, Visited(r, m, u), v) == Good(r, m, v)
  {
  }

  /** The fixer succeeds exactly when no visited source names another database and no visited
      expression is a variable outside schema loading. */
  lemma {:induction false} SucceedsIff(r: Rules, m: Mem, vs: seq<Visit>)
    requires KnowsAll(m, vs)
    ensures !Run(r, m, vs).failed <==> forall i | 0 <= i < |vs| :: Good(r, m, vs[i])
    decreases |vs|
  {
    if vs != [] {
      assert Knows(m, vs[0]) && vs == [vs[0]] + vs[1..];
      if Good(r, m, vs[0]) {
        var m1 := Visited(r, m, vs[0]);
        KnowsParts(m, [vs[0]], vs[1..]);
        KnowsSame(m, m1, vs[1..]);
        SucceedsIff(r, m1, vs[1..]);
        forall i | 0 <= i < |vs[1..]|
          ensures vs[1..][i] == vs[i + 1] && Good(r, m1, vs[1..][i]) == Good(r, m, vs[1..][i])
        {
          VerdictKept(r, m, vs[0], vs[1..][i]);
        }
      }
    }
  }

  /** Nothing is left to fix at this visit. */
  ghost predicate Pinned(r: Rules, m: Mem, v: Visit)
    requires Knows(m, v)
  {
    match v
    case VisitExpr(e) => m.ops[e] != Variable
    case VisitSource(s) => !r.bVarOnly ==> m.sources[s] == (None, r.pSchema)
  }

  lemma PinnedKept(r: Rules, m: Mem, u: Visit, v: Visit)
    requires Knows(m, u) && Knows(m, v)
    ensures Pinned(r, Visited(r, m, u), u)
    ensures Pinned(r, m, v) ==> Pinned(r, Visited(r, m, u), v)
  {
  }

  lemma {:induction false} PinnedThroughout(r: Rules, m: Mem, vs: seq<Visit>, v: Visit)
    requires KnowsAll(m, vs) && Knows(m, v) && Pinned(r, m, v)
    ensures Pinned(r, Run(r, m, vs).mem, v)
    decreases |vs|
  {
    if vs != [] {
      assert Knows(m, vs[0]) && vs == [vs[0]] + vs[1..];
      if Good(r, m, vs[0]) {
        var m1 := Visited(r, m, vs[0]);
        KnowsParts(m, [vs[0]], vs[1..]);
        KnowsSame(m, m1, vs[1..]);
        PinnedKept(r, m, vs[0], v);
        PinnedThroughout(r, m1, vs[1..], v);
      }
    }
  }

  /** After success every visited source has lost its database name and has the fixed schema, and
      no visited expression is a variable. */
  lemma {:induction false} AllPinned(r: Rules, m: Mem, vs: seq<Visit>)
    requires KnowsAll(m, vs) && !Run(r, m, vs).failed
    ensures forall i | 0 <= i < |vs| :: Pinned(r, Run(r, m, vs).mem, vs[i])
    decreases |vs|
  {
    if vs != [] {
      assert Knows(m, vs[0]) && vs == [vs[0]] + vs[1..];
      var m1 := Visited(r, m, vs[0]);
      KnowsParts(m, [vs[0]], vs[1..]);
      KnowsSame(m, m1, vs[1..]);
      PinnedKept(r, m, vs[0], vs[0]);
      PinnedThroughout(r, m1, vs[1..], vs[0]);
      AllPinned(r, m1, vs[1..]);
      forall i | 0 <= i < |vs|
        ensures Pinned(r, Run(r, m, vs).mem, vs[i])
      {
        if i > 0 { assert vs[i] == vs[1..][i - 1]; }
      }
    }
  }

  /** Where everything is pinned the fixer changes nothing. */
  lemma {:induction false} PinnedRun(r: Rules, m: Mem, vs: seq<Visit>)
    requires KnowsAll(m, vs) && forall i | 0 <= i < |vs| :: Pinned(r, m, vs[i])
    ensures Run(r, m, vs) == Outcome(m, false)
    decreases |vs|
  {
    if vs != [] {
      assert Knows(m, vs[0]) && Pinned(r, m, vs[0]) && vs == [vs[0]] + vs[1..];
      assert Visited(r, m, vs[0]) == m;
      KnowsParts(m, [vs[0]], vs[1..]);
      forall i | 0 <= i < |vs[1..]|
        ensures Pinned(r, m, vs[1..][i])
      {
        assert vs[1..][i] == vs[i + 1];
      }
      PinnedRun(r, m, vs[1..]);
    }
  }

  /** A second run changes nothing. */
  lemma {:induction false} SecondRun(r: Rules, m: Mem, vs: seq<Visit>)
    requires KnowsAll(m, vs) && !Run(r, m, vs).failed
    ensures KnowsAll(Run(r, m, vs).mem, vs)
    ensures Run(r, Run(r, m, vs).mem, vs) == Outcome(Run(r, m, vs).mem, false)
  {
    KnowsSame(m, Run(r, m, vs).mem, vs);
    AllPinned(r, m, vs);
    PinnedRun(r, Run(r, m, vs).mem, vs);
  }

  /** Nodes that are not visited keep what they hold, and a variable only ever becomes NULL. */
  lemma {:induction false} OnlyVisitedChange(r: Rules, m: Mem, vs: seq<Visit>, v: Visit)
    requires KnowsAll(m, vs) && Knows(m, v)
    ensures var m' := Run(r, m, vs).mem;
            match v
            case VisitExpr(e) =>
              || m'.ops[e] == m.ops[e]
              || (v in vs && m.ops[e] == Variable && m'.ops[e] == Null && r.initBusy)
            case VisitSource(s) =>
              || m'.sources[s] == m.sources[s]
              || (v in vs && !r.bVarOnly && m'.sources[s] == (None, r.pSchema))
    decreases |vs|
  {
    if vs != [] {
      assert Knows(m, vs[0]) && vs == [vs[0]] + vs[1..];
      if Good(r, m, vs[0]) {
        var m1 := Visited(r, m, vs[0]);
        KnowsParts(m, [vs[0]], vs[1..]);
        KnowsSame(m, m1, vs[1..]);
        OnlyVisitedChange(r, m1, vs[1..], v);
      }
    }
  }
}
