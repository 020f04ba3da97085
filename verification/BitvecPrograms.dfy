/** What programs of the built-in test mean: each instruction stands for a run of operations on
    evenly spaced bits, whatever the interpreter does to its operands on the way. */
module BitvecPrograms {
  import opened Arith
  import opened Common
  import opened BitvecModel
  import opened BitvecBuiltinTest

  /** Apply `op` n times, to bit s first and to a bit x further on each time. */
  datatype Instruction = Instruction(op: int, n: int, s: int, x: int)

  /** Opcodes that take their bits from operands, not from random numbers. */
  predicate IsDirect(op: int) {
    op == 1 || op == 2 || op == 5
  }

  ghost predicate AllDirect(prog: seq<Instruction>) {
    forall k | 0 <= k < |prog| :: IsDirect(prog[k].op)
  }

  function Encoded(prog: seq<Instruction>): (ops: seq<int>)
    ensures |ops| > 0
  {
    if prog == [] then [0]
    else [prog[0].op, prog[0].n, prog[0].s, prog[0].x] + Encoded(prog[1..])
  }

  /** An instruction is applied at least once. */
  function Times(i: Instruction): nat {
    if i.n < 1 then 1 else i.n
  }

  /** The operand after k applications. */
  function Operand(i: Instruction, k: nat): int {
    if k == 0 then i.s else Operand(i, k - 1) + i.x
  }

  lemma {:induction false} OperandAdvances(i: Instruction, k: nat)
    ensures Operand(i, k) == i.s + k * i.x
  {
    if k > 0 {
      OperandAdvances(i, k - 1);
      assert k * i.x == (k - 1) * i.x + i.x;
    }
  }

  /** Bits are numbered from 1, and numbers wrap around at 2^31 and at the size. */
  function BitFor(v: int, sz: nat): nat
    requires sz > 0
  {
    (v - 1) % 0x8000_0000 % sz + 1
  }

  /** The first n applications of an instruction. */
  function Operations(i: Instruction, sz: nat, n: nat): (t: seq<Operation>)
    requires sz > 0
    ensures |t| == n
  {
    if n == 0 then [] else Operations(i, sz, n - 1) + [Operation(i.op, BitFor(Operand(i, n - 1), sz))]
  }

  lemma {:induction false} OperationsAt(i: Instruction, sz: nat, n: nat, k: nat)
    requires sz > 0 && k < n
    ensures Operations(i, sz, n)[k] == Operation(i.op, BitFor(i.s + k * i.x, sz))
  {
    if k < n - 1 {
      OperationsAt(i, sz, n - 1, k);
    } else {
      OperandAdvances(i, k);
    }
  }

  /** The operations of a whole program, in order. */
  function Meaning(prog: seq<Instruction>, sz: nat): seq<Operation>
    requires sz > 0
  {
    if prog == [] then [] else Operations(prog[0], sz, Times(prog[0])) + Meaning(prog[1..], sz)
  }

  /** What is left of an instruction that has been applied k times. */
  ghost predicate AfterTimes(m: Machine, i: Instruction, k: nat, m': Machine)
    requires m.pc + 4 <= |m.ops|
  {
    && |m'.ops| == |m.ops| && m'.pc == (if k < Times(i) then m.pc else m.pc + 4)
    && m'.ops[m.pc] == i.op && m'.ops[m.pc + 1] == i.n - k
    && m'.ops[m.pc + 2] == Operand(i, k) && m'.ops[m.pc + 3] == i.x
    && m'.ops[m.pc + 4..] == m.ops[m.pc + 4..]
  }

  ghost predicate AtInstruction(m: Machine, i: Instruction) {
    && m.pc + 4 <= |m.ops| && IsDirect(i.op)
    && m.ops[m.pc] == i.op && m.ops[m.pc + 1] == i.n && m.ops[m.pc + 2] == i.s && m.ops[m.pc + 3] == i.x
  }

  /** One application. */
  lemma OneTime(m: Machine, i: Instruction, k: nat, m1: Machine, sz: nat, o: Operation)
    requires AtInstruction(m, i) && k < Times(i) && AfterTimes(m, i, k, m1) && CanApply(m1, sz, o)
    ensures AfterTimes(m, i, k + 1, Next(m1)) && o == Operation(i.op, BitFor(Operand(i, k), sz))
  {
    assert Next(m1).ops[m.pc + 4..] == m1.ops[m.pc + 4..];
  }

  /** The first n applications of the instruction that a run has come to after `from` operations. */
  lemma {:induction false} FirstTimes(
      ms: seq<Machine>, sz: nat, trace: seq<Operation>, from: nat, i: Instruction, n: nat)
    requires sz > 0 && IsRun(ms, sz, trace) && from + n <= |trace| && AtInstruction(ms[from], i) && n <= Times(i)
    ensures AfterTimes(ms[from], i, n, ms[from + n]) && trace[from..from + n] == Operations(i, sz, n)
    decreases n
  {
    if n > 0 {
      FirstTimes(ms, sz, trace, from, i, n - 1);
      assert StepAt(ms, sz, trace, from + n - 1);
      OneTime(ms[from], i, n - 1, ms[from + n - 1], sz, trace[from + n - 1]);
      assert trace[from..from + n] == trace[from..from + n - 1] + [trace[from + n - 1]];
    }
  }

  /** A run that ends with a halt has applied the instruction as often as it says. */
  lemma WholeInstruction(ms: seq<Machine>, sz: nat, trace: seq<Operation>, from: nat, i: Instruction)
    requires sz > 0 && IsRun(ms, sz, trace) && Halted(ms[|trace|])
    requires from <= |trace| && AtInstruction(ms[from], i)
    ensures from + Times(i) <= |trace| && AfterTimes(ms[from], i, Times(i), ms[from + Times(i)])
    ensures trace[from..from + Times(i)] == Operations(i, sz, Times(i))
  {
    if from + Times(i) > |trace| {
      FirstTimes(ms, sz, trace, from, i, |trace| - from);
      assert false;
    }
    FirstTimes(ms, sz, trace, from, i, Times(i));
  }

  /** A halted machine applies nothing. */
  lemma HaltedIsLast(ms: seq<Machine>, sz: nat, trace: seq<Operation>, from: nat)
    requires IsRun(ms, sz, trace) && from <= |trace| && Halted(ms[from])
    ensures from == |trace|
  {
    assert from < |trace| ==> StepAt(ms, sz, trace, from);
  }

  /** Every run of a program, up to its halt, applies exactly the operations it stands for. */
  lemma {:induction false} RunHasMeaning(
      ms: seq<Machine>, sz: nat, trace: seq<Operation>, from: nat, prog: seq<Instruction>)
    requires sz > 0 && IsRun(ms, sz, trace) && Halted(ms[|trace|]) && from <= |trace|
    requires AllDirect(prog) && AtProgram(ms[from], prog)
    ensures trace[from..] == Meaning(prog, sz)
    decreases |prog|
  {
    if prog == [] {
      HaltedIsLast(ms, sz, trace, from);
    } else {
      AtFirst(ms[from], prog);
      WholeInstruction(ms, sz, trace, from, prog[0]);
      var next := from + Times(prog[0]);
      RunHasMeaning(ms, sz, trace, next, prog[1..]);
      assert trace[from..] == trace[from..next] + trace[next..];
    }
  }

  /** The rest of the machine's program is this one. */
  ghost predicate AtProgram(m: Machine, prog: seq<Instruction>) {
    m.pc <= |m.ops| && m.ops[m.pc..] == Encoded(prog)
  }

  lemma AtFirst(m: Machine, prog: seq<Instruction>)
    requires prog != [] && AllDirect(prog) && AtProgram(m, prog)
    ensures AtInstruction(m, prog[0])
    ensures forall m' :: AfterTimes(m, prog[0], Times(prog[0]), m') ==> AtProgram(m', prog[1..])
  {
    var e := m.ops[m.pc..];
    assert e[0] == m.ops[m.pc] && e[1] == m.ops[m.pc + 1] && e[2] == m.ops[m.pc + 2] && e[3] == m.ops[m.pc + 3];
    assert e[4..] == m.ops[m.pc + 4..];
  }

  lemma ExecutionHasMeaning(prog: seq<Instruction>, sz: nat, trace: seq<Operation>)
    requires sz > 0 && AllDirect(prog) && IsExecution(Encoded(prog), sz, trace)
    ensures trace == Meaning(prog, sz)
  {
    var ms :| IsRun(ms, sz, trace) && ms[0] == Machine(Encoded(prog), 0) && Halted(ms[|trace|]);
    RunHasMeaning(ms, sz, trace, 0, prog);
    assert trace[0..] == trace;
  }

  /** One instruction whose bits all lie within the size touches bits s, s + x, s + 2x and so on. */
  lemma InstructionTouches(op: int, n: nat, s: nat, x: nat, sz: nat, trace: seq<Operation>)
    requires IsDirect(op) && n >= 1 && s >= 1 && s + (n - 1) * x <= sz < TWO31
    requires IsExecution([op, n, s, x, 0], sz, trace)
    ensures |trace| == n && forall k | 0 <= k < n :: trace[k] == Operation(op, s + k * x)
  {
    var i := Instruction(op, n, s, x);
    assert Encoded([]) == [0] && [i][1..] == [];
    assert Encoded([i]) == [op, n, s, x, 0];
    ExecutionHasMeaning([i], sz, trace);
    assert Meaning([i], sz) == Operations(i, sz, n) + Meaning([], sz) == Operations(i, sz, n);
    forall k | 0 <= k < n
      ensures trace[k] == Operation(op, s + k * x)
    {
      OperationsAt(i, sz, n, k);
      StaysWithin(n, s, x, sz, k);
    }
  }

  lemma StaysWithin(n: nat, s: nat, x: nat, sz: nat, k: nat)
    requires k < n && s >= 1 && s + (n - 1) * x <= sz < TWO31
    ensures BitFor(s + k * x, sz) == s + k * x
  {
    MulMonotone(x, k, n - 1);
    assert x * k == k * x && x * (n - 1) == (n - 1) * x;
    SmallIsItself(s + k * x - 1, sz);
  }

  lemma SmallIsItself(v: nat, sz: nat)
    requires v < sz < TWO31
    ensures v % 0x8000_0000 % sz == v
  {
    BelowIsItself(v, 0x8000_0000);
    BelowIsItself(v, sz);
  }

  lemma BelowIsItself(v: nat, d: nat)
    requires v < d
    ensures v % d == v
  {
    QuotientUnique(v, d, 0, v);
  }

  // ---- what a trace leaves ----

  /** The last operation on a bit decides whether the linear array holds it. */
  ghost predicate LastSets(trace: seq<Operation>, b: nat) {
    exists k ::
      && 0 <= k < |trace| && trace[k].bit == b && trace[k].op % 2 != 0
      && forall j | k < j < |trace| :: trace[j].bit != b
  }

  lemma {:induction false} LastDecides(trace: seq<Operation>, b: nat)
    ensures b in Linear(trace) <==> LastSets(trace, b)
    decreases |trace|
  {
    if trace != [] {
      var n := |trace| - 1;
      LastDecides(trace[..n], b);
      if trace[n].bit != b && LastSets(trace, b) {
        var k :| 0 <= k < |trace| && trace[k].bit == b && trace[k].op % 2 != 0
                 && forall j | k < j < |trace| :: trace[j].bit != b;
        assert trace[..n][k].bit == b;
      }
      if trace[n].bit != b && LastSets(trace[..n], b) {
        var k :| 0 <= k < n && trace[..n][k].bit == b && trace[..n][k].op % 2 != 0
                 && forall j | k < j < n :: trace[..n][j].bit != b;
        forall j | k < j < |trace|
          ensures trace[j].bit != b
        {
          if j < n { assert trace[..n][j].bit != b; }
        }
        assert trace[k].bit == b;
      }
    }
  }

  /** The vector holds what the operations other than opcode 5 leave. */
  function Undisturbed(trace: seq<Operation>): seq<Operation> {
    if trace == [] then []
    else
      var n := |trace| - 1;
      Undisturbed(trace[..n]) + if trace[n].op == 5 then [] else [trace[n]]
  }

  lemma {:induction false} VectorIsUndisturbed(trace: seq<Operation>)
    ensures Vector(trace) == Linear(Undisturbed(trace))
    decreases |trace|
  {
    if trace != [] {
      var n := |trace| - 1;
      VectorIsUndisturbed(trace[..n]);
      var u := Undisturbed(trace[..n]);
      if trace[n].op == 5 {
        assert Undisturbed(trace) == u;
      } else {
        assert Undisturbed(trace) == u + [trace[n]];
        assert (u + [trace[n]])[..|u|] == u;
      }
    }
  }

  lemma {:induction false} OnlyFaults(trace: seq<Operation>)
    requires forall k | 0 <= k < |trace| :: trace[k].op == 5
    ensures Vector(trace) == {}
    decreases |trace|
  {
    if trace != [] {
      OnlyFaults(trace[..|trace| - 1]);
    }
  }

  /** A fault at bit s and beyond is reported as bit s. */
  lemma FaultDiffersFirst(n: nat, s: nat, x: nat, trace: seq<Operation>, rc: int)
    requires n >= 1 && s >= 1 && |trace| == n && forall k | 0 <= k < n :: trace[k] == Operation(5, s + k * x)
    ensures Linear(trace) != Vector(trace)
    ensures DifferFirstAt(Linear(trace), Vector(trace), rc) ==> rc == s
  {
    OnlyFaults(trace);
    LinearOfFault(n, s, x, trace);
    if DifferFirstAt(Linear(trace), Vector(trace), rc) {
      LinearIsAbove(trace, s, rc);
    }
  }

  lemma {:induction false} LinearOfFault(n: nat, s: nat, x: nat, trace: seq<Operation>)
    requires n >= 1 && |trace| == n && forall k | 0 <= k < n :: trace[k] == Operation(5, s + k * x)
    ensures s in Linear(trace)
    decreases n
  {
    if n > 1 {
      LinearOfFault(n - 1, s, x, trace[..n - 1]);
    } else {
      assert trace[0] == Operation(5, s + 0 * x);
    }
  }

  lemma LinearIsAbove(trace: seq<Operation>, s: nat, b: nat)
    requires forall k | 0 <= k < |trace| :: trace[k].bit >= s
    ensures b in Linear(trace) ==> b >= s
  {
    LastDecides(trace, b);
  }

  /** The built-in test finds a fault that a program of opcode 5 injects at bit s and beyond. */
  method FaultIsReported(z: Sizes, sz: nat, n: nat, s: nat, x: nat, enough: bool) returns (rc: int)
    requires IsSizes(z) && n >= 1 && s >= 1 && s + (n - 1) * x <= sz < TWO31
    ensures rc == s || (rc == -1 && !enough)
  {
    var aOp := new int[5] [5, n, s, x, 0];
    assert aOp[..] == [5, n, s, x, 0];
    assert IsProgram(aOp[..], 4);
    ghost var trace;
    rc, trace := BuiltinTest(z, sz, aOp, enough);
    if rc != -1 {
      InstructionTouches(5, n, s, x, sz, trace);
      FaultDiffersFirst(n, s, x, trace, rc);
    }
  }
}
