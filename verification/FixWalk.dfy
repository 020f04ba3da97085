/** The walkers that fix a parse tree in place. */
module FixWalk {
  import opened Common
  import opened DbFixer
  import opened FixReach

  /** All nodes to be visited are among the given ones. */
  ghost predicate Within(vs: seq<Visit>, es: set<ExprCell>, ss: set<SourceCell>) {
    forall i | 0 <= i < |vs| ::
      match vs[i]
      case VisitExpr(e) => e in es
      case VisitSource(s) => s in ss
  }

  lemma WithinParts(us: seq<Visit>, vs: seq<Visit>, es: set<ExprCell>, ss: set<SourceCell>)
    requires Within(us + vs, es, ss)
    ensures Within(us, es, ss) && Within(vs, es, ss)
  {
    forall i | 0 <= i < |us|
      ensures us[i] == (us + vs)[i]
    {
    }
    forall i | 0 <= i < |vs|
      ensures vs[i] == (us + vs)[|us| + i]
    {
    }
  }

  /** What the nodes hold now. */
  ghost function Now(es: set<ExprCell>, ss: set<SourceCell>): (m: Mem)
    reads es, ss
    ensures m.ops.Keys == es && m.sources.Keys == ss
  {
    Mem(map e | e in es :: e.op, map s | s in ss :: (s.zDatabase, s.pSchema))
  }

  lemma WithinKnown(vs: seq<Visit>, es: set<ExprCell>, ss: set<SourceCell>, m: Mem)
    requires Within(vs, es, ss) && m.ops.Keys == es && m.sources.Keys == ss
    ensures KnowsAll(m, vs)
  {
  }

  /** Visits vs have led from m to m', and `failed` says whether one objected. */
  ghost predicate Leads(r: Rules, m: Mem, vs: seq<Visit>, m': Mem, failed: bool) {
    KnowsAll(m, vs) && Run(r, m, vs) == Outcome(m', failed)
  }

  /** Going on after `done`: a failure is final, otherwise more is done. */
  lemma LeadsOn(r: Rules, m0: Mem, done: seq<Visit>, m1: Mem, vs: seq<Visit>, m2: Mem, failed: bool)
    requires Leads(r, m0, done, m1, false) && Leads(r, m1, vs, m2, failed)
    ensures Leads(r, m0, done + vs, m2, failed)
  {
    KnowsSame(m0, m1, vs);
    RunAppend(r, m0, done, vs);
  }

  lemma FailureIsFinal(r: Rules, m0: Mem, done: seq<Visit>, m1: Mem, rest: seq<Visit>)
    requires Leads(r, m0, done, m1, true) && KnowsAll(m0, rest)
    ensures Leads(r, m0, done + rest, m1, true)
  {
    RunAppend(r, m0, done, rest);
  }

  /** One round of a loop over visits: `done` lie behind, vs were made, `rest` lie ahead. */
  lemma Advance(
      r: Rules, m0: Mem, done: seq<Visit>, m1: Mem, vs: seq<Visit>, rest: seq<Visit>, whole: seq<Visit>,
      m2: Mem, failed: bool)
    requires Leads(r, m0, done, m1, false) && Leads(r, m1, vs, m2, failed) && KnowsAll(m0, rest)
    requires done + (vs + rest) == whole
    ensures done + vs + rest == whole
    ensures if failed then Leads(r, m0, whole, m2, true) else Leads(r, m0, done + vs, m2, false)
  {
    LeadsOn(r, m0, done, m1, vs, m2, failed);
    assert done + vs + rest == done + (vs + rest);
    if failed {
      FailureIsFinal(r, m0, done + vs, m2, rest);
    }
  }

  lemma FourParts(
      a: seq<Visit>, b: seq<Visit>, c: seq<Visit>, d: seq<Visit>, es: set<ExprCell>, ss: set<SourceCell>,
      m: Mem)
    requires Within(a + b + c + d, es, ss) && m.ops.Keys == es && m.sources.Keys == ss
    ensures Within(a, es, ss) && Within(b, es, ss) && Within(c, es, ss) && Within(d, es, ss)
    ensures KnowsAll(m, b) && KnowsAll(m, c) && KnowsAll(m, d)
  {
    WithinParts(a + b + c, d, es, ss);
    WithinParts(a + b, c, es, ss);
    WithinParts(a, b, es, ss);
    WithinKnown(b, es, ss, m);
    WithinKnown(c, es, ss, m);
    WithinKnown(d, es, ss, m);
  }

  /** A failure in the first n of four parts is a failure of the whole. */
  lemma FailureFinalInFour(
      r: Rules, m0: Mem, a: seq<Visit>, b: seq<Visit>, c: seq<Visit>, d: seq<Visit>, n: nat, m1: Mem)
    requires 1 <= n <= 3 && KnowsAll(m0, b) && KnowsAll(m0, c) && KnowsAll(m0, d)
    requires Leads(r, m0, if n == 1 then a else if n == 2 then a + b else a + b + c, m1, true)
    ensures Leads(r, m0, a + b + c + d, m1, true)
  {
    if n == 1 { FailureIsFinal(r, m0, a, m1, b); }
    if n <= 2 { FailureIsFinal(r, m0, a + b, m1, c); }
    FailureIsFinal(r, m0, a + b + c, m1, d);
  }

  class Fixer {
    const r: Rules
    var nErr: nat

    /** Database 1 is TEMP: its objects may refer to anything, so only variables matter there. */
    constructor FixInit(zName: string, pSchema: int, iDb: nat, initBusy: bool)
      ensures r == Rules(zName, pSchema, iDb == 1, initBusy) && nErr == 0
    {
      r, nErr := Rules(zName, pSchema, iDb == 1, initBusy), 0;
    }

    /** Turn a variable into NULL while a schema is loaded; otherwise object to it. */
    method VisitExprNode(cell: ExprCell, ghost es: set<ExprCell>, ghost ss: set<SourceCell>) returns (failed: bool)
      requires cell in es
      modifies this`nErr, cell
      ensures Leads(r, old(Now(es, ss)), [VisitExpr(cell)], Now(es, ss), failed)
      ensures nErr == old(nErr) + if failed then 1 else 0
    {
      failed := false;
      ghost var m0 := Now(es, ss);
      if cell.op == Variable {
        if r.initBusy {
          cell.op := Null;
        } else {
          nErr := nErr + 1;
          failed := true;
        }
      }
      assert [VisitExpr(cell)][1..] == [];
      assert !failed ==> Now(es, ss) == Visited(r, m0, VisitExpr(cell));
      assert failed ==> Now(es, ss) == m0;
    }

    /** Pin a source to the schema unless it names another database. */
    method VisitSourceItem(
        cell: SourceCell, ghost es: set<ExprCell>, ghost ss: set<SourceCell>)
      returns (failed: bool)
      requires cell in ss
      modifies this`nErr, cell
      ensures Leads(r, old(Now(es, ss)), [VisitSource(cell)], Now(es, ss), failed)
      ensures nErr == old(nErr) + if failed then 1 else 0
    {
      failed := false;
      ghost var m0 := Now(es, ss);
      if !r.bVarOnly {
        if cell.zDatabase.Some? && !SameName(cell.zDatabase.value, r.zDb) {
          nErr := nErr + 1;
          failed := true;
        } else {
          cell.zDatabase := None;
          cell.pSchema := r.pSchema;
        }
      }
      assert [VisitSource(cell)][1..] == [];
      assert !failed ==> Now(es, ss) == Visited(r, m0, VisitSource(cell));
      assert failed ==> Now(es, ss) == m0;
    }

    method FixExpr(pExpr: Expr, ghost es: set<ExprCell>, ghost ss: set<SourceCell>) returns (failed: bool)
      requires Within(ExprVisits(pExpr), es, ss)
      modifies this`nErr, es, ss
      ensures Leads(r, old(Now(es, ss)), ExprVisits(pExpr), Now(es, ss), failed)
      ensures nErr == old(nErr) + if failed then 1 else 0
      decreases pExpr, 3
    {
      ghost var m0, done: seq<Visit> := Now(es, ss), [];
      var e := pExpr;
      while e.Node?
        invariant e == pExpr || e < pExpr
        invariant done + ExprVisits(e) == ExprVisits(pExpr)
        invariant Within(ExprVisits(e), es, ss)
        invariant Leads(r, m0, done, Now(es, ss), false) && nErr == old(nErr)
        decreases e
      {
        ghost var vs, rest := NodeVisits(e), if e.tokenOnly then [] else ExprVisits(e.pLeft);
        WithinParts(vs, rest, es, ss);
        WithinKnown(rest, es, ss, m0);
        ghost var m1 := Now(es, ss);
        failed := FixExprNode(e, es, ss);
        Advance(r, m0, done, m1, vs, rest, ExprVisits(pExpr), Now(es, ss), failed);
        if failed { return; }
        done := done + vs;
        if e.tokenOnly {
          assert done + [] == done;
          return false;
        }
        e := e.pLeft;
      }
      assert done + [] == done;
      failed := false;
    }

    /** One expression node, its subquery or arguments, and its right operand. */
    method FixExprNode(e: Expr, ghost es: set<ExprCell>, ghost ss: set<SourceCell>) returns (failed: bool)
      requires e.Node? && Within(NodeVisits(e), es, ss)
      modifies this`nErr, es, ss
      ensures Leads(r, old(Now(es, ss)), NodeVisits(e), Now(es, ss), failed)
      ensures nErr == old(nErr) + if failed then 1 else 0
      decreases e, 2
    {
      ghost var m0, here := Now(es, ss), [VisitExpr(e.cell)];
      ghost var rest := if e.tokenOnly then [] else OperandVisits(e.x) + ExprVisits(e.pRight);
      assert NodeVisits(e) == here + rest;
      WithinParts(here, rest, es, ss);
      assert VisitExpr(e.cell) == here[0];
      failed := VisitExprNode(e.cell, es, ss);
      WithinKnown(rest, es, ss, m0);
      if failed {
        FailureIsFinal(r, m0, here, Now(es, ss), rest);
      } else if !e.tokenOnly {
        ghost var m1 := Now(es, ss);
        failed := FixOperands(e, es, ss);
        LeadsOn(r, m0, here, m1, rest, Now(es, ss), failed);
      }
    }

    method FixOperands(e: Expr, ghost es: set<ExprCell>, ghost ss: set<SourceCell>) returns (failed: bool)
      requires e.Node? && Within(OperandVisits(e.x) + ExprVisits(e.pRight), es, ss)
      modifies this`nErr, es, ss
      ensures Leads(r, old(Now(es, ss)), OperandVisits(e.x) + ExprVisits(e.pRight), Now(es, ss), failed)
      ensures nErr == old(nErr) + if failed then 1 else 0
      decreases e, 1
    {
      ghost var m0 := Now(es, ss);
      WithinParts(OperandVisits(e.x), ExprVisits(e.pRight), es, ss);
      match e.x {
        case Subquery(sel) => failed := FixSelect(sel, es, ss);
        case Arguments(list) => failed := FixExprList(list, es, ss);
      }
      if failed {
        WithinKnown(ExprVisits(e.pRight), es, ss, m0);
        FailureIsFinal(r, m0, OperandVisits(e.x), Now(es, ss), ExprVisits(e.pRight));
        return;
      }
      ghost var m1 := Now(es, ss);
      failed := FixExpr(e.pRight, es, ss);
      LeadsOn(r, m0, OperandVisits(e.x), m1, ExprVisits(e.pRight), Now(es, ss), failed);
    }

    method FixExprList(pList: ExprList, ghost es: set<ExprCell>, ghost ss: set<SourceCell>) returns (failed: bool)
      requires Within(ListVisits(pList), es, ss)
      modifies this`nErr, es, ss
      ensures Leads(r, old(Now(es, ss)), ListVisits(pList), Now(es, ss), failed)
      ensures nErr == old(nErr) + if failed then 1 else 0
      decreases pList, 3
    {
      if pList == NoList { return false; }
      ghost var m0, done: seq<Visit> := Now(es, ss), [];
      var i := 0;
      assert pList.a[0..] == pList.a;
      while i < |pList.a|
        invariant 0 <= i <= |pList.a|
        invariant done + ItemVisits(pList.a[i..]) == ListVisits(pList)
        invariant Within(ItemVisits(pList.a[i..]), es, ss)
        invariant Leads(r, m0, done, Now(es, ss), false) && nErr == old(nErr)
      {
        ghost var vs, rest := ExprVisits(pList.a[i]), ItemVisits(pList.a[i + 1..]);
        assert pList.a[i..][1..] == pList.a[i + 1..];
        WithinParts(vs, rest, es, ss);
        WithinKnown(rest, es, ss, m0);
        ghost var m1 := Now(es, ss);
        failed := FixExpr(pList.a[i], es, ss);
        Advance(r, m0, done, m1, vs, rest, ListVisits(pList), Now(es, ss), failed);
        if failed { return; }
        done := done + vs;
        i := i + 1;
      }
      assert done + [] == done;
      failed := false;
    }

    method FixSrcList(pList: SrcList, ghost es: set<ExprCell>, ghost ss: set<SourceCell>) returns (failed: bool)
      requires Within(SrcListVisits(pList), es, ss)
      modifies this`nErr, es, ss
      ensures Leads(r, old(Now(es, ss)), SrcListVisits(pList), Now(es, ss), failed)
      ensures nErr == old(nErr) + if failed then 1 else 0
      decreases pList, 3
    {
      if pList == NoSources { return false; }
      ghost var m0, done: seq<Visit> := Now(es, ss), [];
      var i := 0;
      assert pList.a[0..] == pList.a;
      while i < |pList.a|
        invariant 0 <= i <= |pList.a|
        invariant done + SourcesVisits(pList.a[i..]) == SrcListVisits(pList)
        invariant Within(SourcesVisits(pList.a[i..]), es, ss)
        invariant Leads(r, m0, done, Now(es, ss), false) && nErr == old(nErr)
      {
        ghost var vs, rest := SourceVisits(pList.a[i]), SourcesVisits(pList.a[i + 1..]);
        assert pList.a[i..][1..] == pList.a[i + 1..];
        WithinParts(vs, rest, es, ss);
        WithinKnown(rest, es, ss, m0);
        ghost var m1 := Now(es, ss);
        failed := FixSource(pList.a[i], es, ss);
        Advance(r, m0, done, m1, vs, rest, SrcListVisits(pList), Now(es, ss), failed);
        if failed { return; }
        done := done + vs;
        i := i + 1;
      }
      assert done + [] == done;
      failed := false;
    }

    /** One source: the item itself, its subquery and its ON clause. */
    method FixSource(src: Source, ghost es: set<ExprCell>, ghost ss: set<SourceCell>) returns (failed: bool)
      requires Within(SourceVisits(src), es, ss)
      modifies this`nErr, es, ss
      ensures Leads(r, old(Now(es, ss)), SourceVisits(src), Now(es, ss), failed)
      ensures nErr == old(nErr) + if failed then 1 else 0
      decreases src, 2
    {
      ghost var m0, a, b, c := Now(es, ss), [VisitSource(src.item)], SelectVisits(src.pSelect), ExprVisits(src.pOn);
      WithinParts(a + b, c, es, ss);
      WithinParts(a, b, es, ss);
      WithinKnown(b, es, ss, m0);
      WithinKnown(c, es, ss, m0);
      assert VisitSource(src.item) == a[0];
      failed := VisitSourceItem(src.item, es, ss);
      if failed {
        FailureIsFinal(r, m0, a, Now(es, ss), b);
        FailureIsFinal(r, m0, a + b, Now(es, ss), c);
        return;
      }
      ghost var m1 := Now(es, ss);
      failed := FixSelect(src.pSelect, es, ss);
      LeadsOn(r, m0, a, m1, b, Now(es, ss), failed);
      if failed {
        FailureIsFinal(r, m0, a + b, Now(es, ss), c);
        return;
      }
      ghost var m2 := Now(es, ss);
      failed := FixExpr(src.pOn, es, ss);
      LeadsOn(r, m0, a + b, m2, c, Now(es, ss), failed);
    }

    method FixSelect(pSelect: Select, ghost es: set<ExprCell>, ghost ss: set<SourceCell>) returns (failed: bool)
      requires Within(SelectVisits(pSelect), es, ss)
      modifies this`nErr, es, ss
      ensures Leads(r, old(Now(es, ss)), SelectVisits(pSelect), Now(es, ss), failed)
      ensures nErr == old(nErr) + if failed then 1 else 0
      decreases pSelect, 3
    {
      ghost var m0, done: seq<Visit> := Now(es, ss), [];
      var sel := pSelect;
      while sel.Query?
        invariant sel == pSelect || sel < pSelect
        invariant done + SelectVisits(sel) == SelectVisits(pSelect)
        invariant Within(SelectVisits(sel), es, ss)
        invariant Leads(r, m0, done, Now(es, ss), false) && nErr == old(nErr)
        decreases sel
      {
        ghost var vs, rest := QueryVisits(sel), SelectVisits(sel.pPrior);
        WithinParts(vs, rest, es, ss);
        WithinKnown(rest, es, ss, m0);
        ghost var m1 := Now(es, ss);
        failed := FixQuery(sel, es, ss);
        Advance(r, m0, done, m1, vs, rest, SelectVisits(pSelect), Now(es, ss), failed);
        if failed { return; }
        done := done + vs;
        sel := sel.pPrior;
      }
      assert done + [] == done;
      failed := false;
    }

    /** The clauses of one SELECT. */
    method FixQuery(q: Select, ghost es: set<ExprCell>, ghost ss: set<SourceCell>) returns (failed: bool)
      requires q.Query? && Within(QueryVisits(q), es, ss)
      modifies this`nErr, es, ss
      ensures Leads(r, old(Now(es, ss)), QueryVisits(q), Now(es, ss), failed)
      ensures nErr == old(nErr) + if failed then 1 else 0
      decreases q, 2
    {
      ghost var m0, a, b := Now(es, ss), FromWhereVisits(q), HavingLimitVisits(q);
      WithinParts(a, b, es, ss);
      WithinKnown(b, es, ss, m0);
      failed := FixFromWhere(q, es, ss);
      if failed {
        FailureIsFinal(r, m0, a, Now(es, ss), b);
        return;
      }
      ghost var m1 := Now(es, ss);
      failed := FixHavingLimit(q, es, ss);
      LeadsOn(r, m0, a, m1, b, Now(es, ss), failed);
    }

    method FixFromWhere(q: Select, ghost es: set<ExprCell>, ghost ss: set<SourceCell>) returns (failed: bool)
      requires q.Query? && Within(FromWhereVisits(q), es, ss)
      modifies this`nErr, es, ss
      ensures Leads(r, old(Now(es, ss)), FromWhereVisits(q), Now(es, ss), failed)
      ensures nErr == old(nErr) + if failed then 1 else 0
      decreases q, 1
    {
      ghost var m0 := Now(es, ss);
      ghost var a, b, c, d := ListVisits(q.pEList), SrcListVisits(q.pSrc), ExprVisits(q.pWhere), ListVisits(q.pGroupBy);
      FourParts(a, b, c, d, es, ss, m0);
      failed := FixExprList(q.pEList, es, ss);
      if failed {
        FailureFinalInFour(r, m0, a, b, c, d, 1, Now(es, ss));
        return;
      }
      ghost var m1 := Now(es, ss);
      failed := FixSrcList(q.pSrc, es, ss);
      LeadsOn(r, m0, a, m1, b, Now(es, ss), failed);
      if failed {
        FailureFinalInFour(r, m0, a, b, c, d, 2, Now(es, ss));
        return;
      }
      ghost var m2 := Now(es, ss);
      failed := FixExpr(q.pWhere, es, ss);
      LeadsOn(r, m0, a + b, m2, c, Now(es, ss), failed);
      if failed {
        FailureFinalInFour(r, m0, a, b, c, d, 3, Now(es, ss));
        return;
      }
      ghost var m3 := Now(es, ss);
      failed := FixExprList(q.pGroupBy, es, ss);
      LeadsOn(r, m0, a + b + c, m3, d, Now(es, ss), failed);
    }

    method FixHavingLimit(q: Select, ghost es: set<ExprCell>, ghost ss: set<SourceCell>) returns (failed: bool)
      requires q.Query? && Within(HavingLimitVisits(q), es, ss)
      modifies this`nErr, es, ss
      ensures Leads(r, old(Now(es, ss)), HavingLimitVisits(q), Now(es, ss), failed)
      ensures nErr == old(nErr) + if failed then 1 else 0
      decreases q, 1
    {
      ghost var m0 := Now(es, ss);
      ghost var a, b := ExprVisits(q.pHaving), ListVisits(q.pOrderBy);
      ghost var c, d := ExprVisits(q.pLimit), ExprVisits(q.pOffset);
      FourParts(a, b, c, d, es, ss, m0);
      failed := FixExpr(q.pHaving, es, ss);
      if failed {
        FailureFinalInFour(r, m0, a, b, c, d, 1, Now(es, ss));
        return;
      }
      ghost var m1 := Now(es, ss);
      failed := FixExprList(q.pOrderBy, es, ss);
      LeadsOn(r, m0, a, m1, b, Now(es, ss), failed);
      if failed {
        FailureFinalInFour(r, m0, a, b, c, d, 2, Now(es, ss));
        return;
      }
      ghost var m2 := Now(es, ss);
      failed := FixExpr(q.pLimit, es, ss);
      LeadsOn(r, m0, a + b, m2, c, Now(es, ss), failed);
      if failed {
        FailureFinalInFour(r, m0, a, b, c, d, 3, Now(es, ss));
        return;
      }
      ghost var m3 := Now(es, ss);
      failed := FixExpr(q.pOffset, es, ss);
      LeadsOn(r, m0, a + b + c, m3, d, Now(es, ss), failed);
    }

    method FixTriggerStep(
        pStep: TriggerStep, ghost es: set<ExprCell>, ghost ss: set<SourceCell>)
      returns (failed: bool)
      requires Within(TriggerVisits(pStep), es, ss)
      modifies this`nErr, es, ss
      ensures Leads(r, old(Now(es, ss)), TriggerVisits(pStep), Now(es, ss), failed)
      ensures nErr == old(nErr) + if failed then 1 else 0
    {
      ghost var m0, done: seq<Visit> := Now(es, ss), [];
      var step := pStep;
      while step.Step?
        invariant done + TriggerVisits(step) == TriggerVisits(pStep)
        invariant Within(TriggerVisits(step), es, ss)
        invariant Leads(r, m0, done, Now(es, ss), false) && nErr == old(nErr)
        decreases step
      {
        ghost var vs := StepVisits(step);
        ghost var rest := TriggerVisits(step.pNext);
        WithinParts(vs, rest, es, ss);
        WithinKnown(rest, es, ss, m0);
        ghost var m1 := Now(es, ss);
        failed := FixOneStep(step, es, ss);
        Advance(r, m0, done, m1, vs, rest, TriggerVisits(pStep), Now(es, ss), failed);
        if failed { return; }
        done := done + vs;
        step := step.pNext;
      }
      assert done + [] == done;
      failed := false;
    }

    method FixOneStep(step: TriggerStep, ghost es: set<ExprCell>, ghost ss: set<SourceCell>) returns (failed: bool)
      requires step.Step?
      requires Within(StepVisits(step), es, ss)
      modifies this`nErr, es, ss
      ensures Leads(r, old(Now(es, ss)), StepVisits(step), Now(es, ss), failed)
      ensures nErr == old(nErr) + if failed then 1 else 0
    {
      ghost var m0, a := Now(es, ss), SelectVisits(step.target);
      ghost var b, c := ExprVisits(step.pWhere), ListVisits(step.pExprList);
      WithinParts(a + b, c, es, ss);
      WithinParts(a, b, es, ss);
      WithinKnown(b, es, ss, m0);
      WithinKnown(c, es, ss, m0);
      failed := FixSelect(step.target, es, ss);
      if failed {
        FailureIsFinal(r, m0, a, Now(es, ss), b);
        FailureIsFinal(r, m0, a + b, Now(es, ss), c);
        return;
      }
      ghost var m1 := Now(es, ss);
      failed := FixExpr(step.pWhere, es, ss);
      LeadsOn(r, m0, a, m1, b, Now(es, ss), failed);
      if failed {
        FailureIsFinal(r, m0, a + b, Now(es, ss), c);
        return;
      }
      ghost var m2 := Now(es, ss);
      failed := FixExprList(step.pExprList, es, ss);
      LeadsOn(r, m0, a + b, m2, c, Now(es, ss), failed);
    }
  }

  /** Nothing among these visits is objectionable. */
  ghost predicate AllGood(r: Rules, m: Mem, vs: seq<Visit>) {
    KnowsAll(m, vs) && forall i | 0 <= i < |vs| :: Good(r, m, vs[i])
  }

  /** Nothing among these visits is left to fix. */
  ghost predicate NothingToFix(r: Rules, m: Mem, vs: seq<Visit>) {
    KnowsAll(m, vs) && forall i | 0 <= i < |vs| :: Pinned(r, m, vs[i])
  }

  /** What a walk tells.  It succeeds exactly when nothing it visits was objectionable, and then
      leaves nothing to fix; another walk would succeed and change nothing. */
  lemma WalkTells(r: Rules, m: Mem, vs: seq<Visit>, m': Mem, failed: bool)
    requires Leads(r, m, vs, m', failed)
    ensures !failed <==> AllGood(r, m, vs)
    ensures !failed ==> NothingToFix(r, m', vs)
    ensures !failed ==> Leads(r, m', vs, m', false)
  {
    SucceedsIff(r, m, vs);
    if !failed {
      AllPinned(r, m, vs);
      SecondRun(r, m, vs);
    }
  }

  // ---- what this means for the nodes of a parse tree ----

  /** No variable can be reached, unless the schema is being loaded, and no source that names
      another database, unless sources do not matter. */
  ghost predicate Acceptable(r: Rules, p: Part, es: set<ExprCell>, ss: set<SourceCell>)
    reads es, ss
  {
    && (forall e | e in es && Reaches(p, VisitExpr(e)) :: e.op == Variable ==> r.initBusy)
    && (forall s | s in ss && Reaches(p, VisitSource(s)) ::
          !r.bVarOnly && s.zDatabase.Some? ==> SameName(s.zDatabase.value, r.zDb))
  }

  /** No variable can be reached, and every source that can be reached refers to the schema. */
  ghost predicate Fixed(r: Rules, p: Part, es: set<ExprCell>, ss: set<SourceCell>)
    reads es, ss
  {
    && (forall e | e in es && Reaches(p, VisitExpr(e)) :: e.op != Variable)
    && (forall s | s in ss && Reaches(p, VisitSource(s)) ::
          !r.bVarOnly ==> s.zDatabase == None && s.pSchema == r.pSchema)
  }

  /** What cannot be reached is as it was, and all that happens to an expression is that a variable
      becomes NULL. */
  ghost predicate OnlyReachedChange(p: Part, m: Mem, m': Mem) {
    && m'.ops.Keys == m.ops.Keys && m'.sources.Keys == m.sources.Keys
    && (forall e | e in m.ops ::
          m'.ops[e] == m.ops[e] || (Reaches(p, VisitExpr(e)) && m.ops[e] == Variable && m'.ops[e] == Null))
    && (forall s | s in m.sources && !Reaches(p, VisitSource(s)) :: m'.sources[s] == m.sources[s])
  }

  lemma GoodMeansAcceptable(r: Rules, p: Part, es: set<ExprCell>, ss: set<SourceCell>)
    requires Within(Visits(p), es, ss)
    ensures AllGood(r, Now(es, ss), Visits(p)) <==> Acceptable(r, p, es, ss)
  {
    var m, vs := Now(es, ss), Visits(p);
    WithinKnown(vs, es, ss, m);
    forall i | 0 <= i < |vs|
      ensures Reaches(p, vs[i])
    {
      VisitedIffReached(p, vs[i]);
    }
    forall e | e in es && Reaches(p, VisitExpr(e))
      ensures VisitExpr(e) in vs
    {
      VisitedIffReached(p, VisitExpr(e));
    }
    forall s | s in ss && Reaches(p, VisitSource(s))
      ensures VisitSource(s) in vs
    {
      VisitedIffReached(p, VisitSource(s));
    }
  }

  lemma NothingToFixMeansFixed(r: Rules, p: Part, es: set<ExprCell>, ss: set<SourceCell>)
    requires NothingToFix(r, Now(es, ss), Visits(p))
    ensures Fixed(r, p, es, ss)
  {
    var m, vs := Now(es, ss), Visits(p);
    forall e | e in es && Reaches(p, VisitExpr(e))
      ensures e.op != Variable
    {
      VisitedIffReached(p, VisitExpr(e));
      assert Pinned(r, m, VisitExpr(e));
    }
    forall s | s in ss && Reaches(p, VisitSource(s))
      ensures !r.bVarOnly ==> s.zDatabase == None && s.pSchema == r.pSchema
    {
      VisitedIffReached(p, VisitSource(s));
      assert Pinned(r, m, VisitSource(s));
    }
  }

  lemma WalkChangesReached(r: Rules, p: Part, m: Mem, m': Mem, failed: bool)
    requires Leads(r, m, Visits(p), m', failed)
    ensures OnlyReachedChange(p, m, m')
  {
    forall e | e in m.ops
      ensures m'.ops[e] == m.ops[e] || (Reaches(p, VisitExpr(e)) && m.ops[e] == Variable && m'.ops[e] == Null)
    {
      OnlyVisitedChange(r, m, Visits(p), VisitExpr(e));
      VisitedIffReached(p, VisitExpr(e));
    }
    forall s | s in m.sources && !Reaches(p, VisitSource(s))
      ensures m'.sources[s] == m.sources[s]
    {
      OnlyVisitedChange(r, m, Visits(p), VisitSource(s));
      VisitedIffReached(p, VisitSource(s));
    }
  }

  /** Fixing a query: it succeeds exactly when everything that can be reached is acceptable, and
      then everything that can be reached is fixed. */
  method FixView(f: Fixer, pSelect: Select, ghost es: set<ExprCell>, ghost ss: set<SourceCell>)
    returns (failed: bool)
    requires Within(SelectVisits(pSelect), es, ss)
    modifies f`nErr, es, ss
    ensures !failed <==> old(Acceptable(f.r, SelectPart(pSelect), es, ss))
    ensures !failed ==> Fixed(f.r, SelectPart(pSelect), es, ss)
    ensures OnlyReachedChange(SelectPart(pSelect), old(Now(es, ss)), Now(es, ss))
    ensures !failed ==> Leads(f.r, Now(es, ss), SelectVisits(pSelect), Now(es, ss), false)
    ensures f.nErr == old(f.nErr) + if failed then 1 else 0
  {
    ghost var m := Now(es, ss);
    GoodMeansAcceptable(f.r, SelectPart(pSelect), es, ss);
    failed := f.FixSelect(pSelect, es, ss);
    WalkTells(f.r, m, SelectVisits(pSelect), Now(es, ss), failed);
    WalkChangesReached(f.r, SelectPart(pSelect), m, Now(es, ss), failed);
    if !failed {
      NothingToFixMeansFixed(f.r, SelectPart(pSelect), es, ss);
    }
  }

  /** The same for the steps of a trigger. */
  method FixTrigger(f: Fixer, pStep: TriggerStep, ghost es: set<ExprCell>, ghost ss: set<SourceCell>)
    returns (failed: bool)
    requires Within(TriggerVisits(pStep), es, ss)
    modifies f`nErr, es, ss
    ensures !failed <==> old(Acceptable(f.r, StepPart(pStep), es, ss))
    ensures !failed ==> Fixed(f.r, StepPart(pStep), es, ss)
    ensures OnlyReachedChange(StepPart(pStep), old(Now(es, ss)), Now(es, ss))
    ensures !failed ==> Leads(f.r, Now(es, ss), TriggerVisits(pStep), Now(es, ss), false)
    ensures f.nErr == old(f.nErr) + if failed then 1 else 0
  {
    ghost var m := Now(es, ss);
    GoodMeansAcceptable(f.r, StepPart(pStep), es, ss);
    failed := f.FixTriggerStep(pStep, es, ss);
    WalkTells(f.r, m, TriggerVisits(pStep), Now(es, ss), failed);
    WalkChangesReached(f.r, StepPart(pStep), m, Now(es, ss), failed);
    if !failed {
      NothingToFixMeansFixed(f.r, StepPart(pStep), es, ss);
    }
  }

  /** Fixing a query twice: the second run succeeds, changes nothing and reports nothing. */
  method FixTwice(f: Fixer, pSelect: Select, ghost es: set<ExprCell>, ghost ss: set<SourceCell>)
    returns (first: bool, second: bool, ghost between: Mem)
    requires Within(SelectVisits(pSelect), es, ss)
    modifies f`nErr, es, ss
    ensures !first <==> old(Acceptable(f.r, SelectPart(pSelect), es, ss))
    ensures !first ==> Fixed(f.r, SelectPart(pSelect), es, ss)
    ensures !second && Now(es, ss) == between
    ensures f.nErr == old(f.nErr) + if first then 1 else 0
  {
    second := false;
    first := FixView(f, pSelect, es, ss);
    between := Now(es, ss);
    if !first {
      second := f.FixSelect(pSelect, es, ss);
    }
  }

  /** Fixing the steps of a trigger twice. */
  method FixTriggerTwice(f: Fixer, pStep: TriggerStep, ghost es: set<ExprCell>, ghost ss: set<SourceCell>)
    returns (first: bool, second: bool, ghost between: Mem)
    requires Within(TriggerVisits(pStep), es, ss)
    modifies f`nErr, es, ss
    ensures !first <==> old(Acceptable(f.r, StepPart(pStep), es, ss))
    ensures !first ==> Fixed(f.r, StepPart(pStep), es, ss)
    ensures !second && Now(es, ss) == between
    ensures f.nErr == old(f.nErr) + if first then 1 else 0
  {
    second := false;
    first := FixTrigger(f, pStep, es, ss);
    between := Now(es, ss);
    if !first {
      second := f.FixTriggerStep(pStep, es, ss);
    }
  }
}
