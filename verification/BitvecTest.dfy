/** The built-in test: a program of set and clear operations is applied to a Bitvec and to a
    linear array of bits, and the two are compared. */
module BitvecBuiltinTest {
  import opened Bits
  import opened Common
  import opened BitvecModel

  /** The length of an instruction, operands included. */
  function InstructionSize(op: int): nat {
    if op == 1 || op == 2 || op == 5 then 4 else 2
  }

  /** Instructions follow one another up to a halt opcode. */
  ghost predicate IsProgram(ops: seq<int>, pc: nat)
    decreases |ops| - pc
  {
    && pc < |ops|
    && (ops[pc] != 0 ==>
          && pc + InstructionSize(ops[pc]) <= |ops|
          && IsProgram(ops, pc + InstructionSize(ops[pc])))
  }

  /** Some instruction from pc on touches the linear array only. */
  ghost predicate InducesFault(ops: seq<int>, pc: nat)
    requires IsProgram(ops, pc)
    decreases |ops| - pc
  {
    ops[pc] != 0 && (ops[pc] == 5 || InducesFault(ops, pc + InstructionSize(ops[pc])))
  }

  lemma {:induction false} OnlyLaterMatters(ops: seq<int>, ops': seq<int>, pc: nat)
    requires |ops| == |ops'| && IsProgram(ops, pc)
    requires forall k | pc <= k < |ops| :: ops[k] == ops'[k]
    ensures IsProgram(ops', pc) && InducesFault(ops', pc) == InducesFault(ops, pc)
    decreases |ops| - pc
  {
    if ops[pc] != 0 {
      OnlyLaterMatters(ops, ops', pc + InstructionSize(ops[pc]));
    }
  }

  lemma OperandsDoNotMatter(ops: seq<int>, ops': seq<int>, pc: nat)
    requires |ops| == |ops'| && IsProgram(ops, pc) && ops[pc] != 0 && ops'[pc] == ops[pc]
    requires forall k | pc + InstructionSize(ops[pc]) <= k < |ops| :: ops[k] == ops'[k]
    ensures IsProgram(ops', pc) && InducesFault(ops', pc) == InducesFault(ops, pc)
    ensures IsProgram(ops', pc + InstructionSize(ops[pc]))
    ensures InducesFault(ops', pc + InstructionSize(ops[pc])) ==> InducesFault(ops, pc)
  {
    OnlyLaterMatters(ops, ops', pc + InstructionSize(ops[pc]));
  }

  /** The program as it has been modified so far, and the instruction to come. */
  datatype Machine = Machine(ops: seq<int>, pc: nat)

  /** Count the instruction down, step its operand, and move on when it is used up. */
  function Next(m: Machine): Machine
    requires m.pc + 1 < |m.ops| && m.pc + InstructionSize(m.ops[m.pc]) <= |m.ops|
  {
    var n := InstructionSize(m.ops[m.pc]);
    var ops := if n == 4 then m.ops[m.pc + 2 := m.ops[m.pc + 2] + m.ops[m.pc + 3]] else m.ops;
    var ops' := ops[m.pc + 1 := ops[m.pc + 1] - 1];
    Machine(ops', if ops'[m.pc + 1] > 0 then m.pc else m.pc + n)
  }

  /** An operation that has been applied. */
  datatype Operation = Operation(op: int, bit: nat)

  /** The bit that an operand names. */
  function BitOf(i: int, sz: nat): (bit: nat)
    requires sz > 0
    ensures 1 <= bit <= sz
  {
    (i % TWO31) % sz + 1
  }

  /** Machine m can apply this operation: its own opcode, to the bit it names or to any bit. */
  ghost predicate CanApply(m: Machine, sz: nat, o: Operation) {
    && sz > 0 && IsProgram(m.ops, m.pc) && m.ops[m.pc] != 0
    && o.op == m.ops[m.pc] && 1 <= o.bit <= sz
    && (InstructionSize(o.op) == 4 ==> o.bit == BitOf(m.ops[m.pc + 2] - 1, sz))
  }

  /** Machine k of a run applies operation k of the trace. */
  ghost predicate StepAt(ms: seq<Machine>, sz: nat, trace: seq<Operation>, k: nat)
    requires k < |trace| && k + 1 < |ms|
  {
    CanApply(ms[k], sz, trace[k]) && ms[k + 1] == Next(ms[k])
  }

  /** The machines of a run, and the operations they apply. */
  ghost predicate IsRun(ms: seq<Machine>, sz: nat, trace: seq<Operation>) {
    |ms| == |trace| + 1 && forall k | 0 <= k < |trace| :: StepAt(ms, sz, trace, k)
  }

  predicate Halted(m: Machine) {
    m.pc < |m.ops| && m.ops[m.pc] == 0
  }

  /** One run of a program, up to its halt. */
  ghost predicate IsExecution(ops: seq<int>, sz: nat, trace: seq<Operation>) {
    exists ms :: IsRun(ms, sz, trace) && ms[0] == Machine(ops, 0) && Halted(ms[|trace|])
  }

  /** What a trace leaves in the linear array, and what it leaves in the Bitvec. */
  function Linear(trace: seq<Operation>): set<nat> {
    if trace == [] then {}
    else
      var o, before := trace[|trace| - 1], Linear(trace[..|trace| - 1]);
      if o.op % 2 != 0 then before + {o.bit} else before - {o.bit}
  }

  function Vector(trace: seq<Operation>): set<nat> {
    if trace == [] then {}
    else
      var o, before := trace[|trace| - 1], Vector(trace[..|trace| - 1]);
      if o.op == 5 then before else if o.op % 2 != 0 then before + {o.bit} else before - {o.bit}
  }

  lemma NextIsProgram(m: Machine, fault: bool)
    requires IsProgram(m.ops, m.pc) && m.ops[m.pc] != 0
    requires InducesFault(m.ops, m.pc) ==> fault
    ensures IsProgram(Next(m).ops, Next(m).pc)
    ensures InducesFault(Next(m).ops, Next(m).pc) ==> fault
  {
    OperandsDoNotMatter(m.ops, Next(m).ops, m.pc);
  }

  /** A program without the fault-injecting opcode treats both alike. */
  lemma {:induction false} NoFaultNoDifference(ms: seq<Machine>, sz: nat, trace: seq<Operation>, n: nat)
    requires IsRun(ms, sz, trace) && IsProgram(ms[0].ops, ms[0].pc) && !InducesFault(ms[0].ops, ms[0].pc)
    requires n <= |trace|
    ensures IsProgram(ms[n].ops, ms[n].pc) && !InducesFault(ms[n].ops, ms[n].pc)
    ensures Linear(trace[..n]) == Vector(trace[..n])
    decreases n
  {
    if n > 0 {
      NoFaultNoDifference(ms, sz, trace, n - 1);
      assert StepAt(ms, sz, trace, n - 1);
      NextIsProgram(ms[n - 1], false);
      assert trace[..n][..n - 1] == trace[..n - 1];
    }
  }

  /** The linear array represents this set. */
  ghost predicate Represents(pV: seq<bv8>, linear: set<nat>, sz: nat)
    requires sz < 8 * |pV|
  {
    && (forall i | i in linear :: 1 <= i <= sz)
    && (forall i: nat | 1 <= i <= sz :: TestBit(pV, i) <==> i in linear)
  }

  /** Set a bit of the linear array. */
  method SetLinear(pV: seq<bv8>, ghost linear: set<nat>, sz: nat, i: nat) returns (pV': seq<bv8>)
    requires sz < 8 * |pV| && Represents(pV, linear, sz) && 1 <= i <= sz
    ensures |pV'| == |pV| && Represents(pV', linear + {i}, sz)
  {
    pV' := SetBit(pV, i);
    forall j: nat | 1 <= j <= sz
      ensures TestBit(pV', j) <==> j in linear + {i}
    {
      SetBitAt(pV, i, j);
    }
  }

  /** Clear a bit of the linear array. */
  method ClearLinear(pV: seq<bv8>, ghost linear: set<nat>, sz: nat, i: nat) returns (pV': seq<bv8>)
    requires sz < 8 * |pV| && Represents(pV, linear, sz) && 1 <= i <= sz
    ensures |pV'| == |pV| && Represents(pV', linear - {i}, sz)
  {
    pV' := ClearBit(pV, i);
    forall j: nat | 1 <= j <= sz
      ensures TestBit(pV', j) <==> j in linear - {i}
    {
      ClearBitAt(pV, i, j);
    }
  }

  /** A run grows by what its last machine can apply. */
  lemma RunOneMore(ms: seq<Machine>, sz: nat, trace: seq<Operation>, o: Operation, m: Machine)
    requires IsRun(ms, sz, trace) && CanApply(ms[|trace|], sz, o) && m == Next(ms[|trace|])
    ensures IsRun(ms + [m], sz, trace + [o])
  {
    var ms', trace' := ms + [m], trace + [o];
    forall k | 0 <= k < |trace'|
      ensures StepAt(ms', sz, trace', k)
    {
      if k < |trace| { assert StepAt(ms, sz, trace, k); }
    }
  }

  /** The run has got to pc by applying the trace. */
  ghost predicate Reached(ms: seq<Machine>, sz: nat, trace: seq<Operation>, ops: seq<int>, pc: nat) {
    IsProgram(ops, pc) && IsRun(ms, sz, trace) && ms[|trace|] == Machine(ops, pc)
  }

  lemma ReachedNext(
      ms: seq<Machine>, sz: nat, trace: seq<Operation>, ops: seq<int>, pc: nat, o: Operation, ops': seq<int>,
      pc': nat)
    requires Reached(ms, sz, trace, ops, pc) && CanApply(Machine(ops, pc), sz, o)
    requires Machine(ops', pc') == Next(Machine(ops, pc))
    ensures Reached(ms + [Machine(ops', pc')], sz, trace + [o], ops', pc')
    ensures pc <= pc' && |ops'| == |ops|
    ensures pc' == pc ==> ops'[pc] == ops[pc] && 0 < ops'[pc + 1] < ops[pc + 1]
  {
    NextIsProgram(Machine(ops, pc), true);
    RunOneMore(ms, sz, trace, o, Machine(ops', pc'));
  }

  /** Fetch the operands of the instruction at pc, count it down, and move on when it is used up. */
  method Fetch(aOp: array<int>, pc: nat, sz: nat) returns (bit: nat, pc': nat)
    requires IsProgram(aOp[..], pc) && aOp[pc] != 0 && sz > 0
    modifies aOp
    ensures CanApply(Machine(old(aOp[..]), pc), sz, Operation(old(aOp[pc]), bit))
    ensures Machine(aOp[..], pc') == Next(Machine(old(aOp[..]), pc))
  {
    var i;
    var nx := InstructionSize(aOp[pc]);
    if nx == 4 {
      i := aOp[pc + 2] - 1;
      aOp[pc + 2] := aOp[pc + 2] + aOp[pc + 3];
    } else {
      i := *;
    }
    aOp[pc + 1] := aOp[pc + 1] - 1;
    if aOp[pc + 1] > 0 { nx := 0; }
    pc' := pc + nx;
    bit := BitOf(i, sz);
  }

  /** Fetch, and take the operation into the trace. */
  method FetchNext(aOp: array<int>, pc: nat, sz: nat, ghost ms: seq<Machine>, ghost trace: seq<Operation>)
    returns (op: int, bit: nat, pc': nat)
    requires Reached(ms, sz, trace, aOp[..], pc) && aOp[pc] != 0 && sz > 0
    modifies aOp
    ensures 1 <= bit <= sz
    ensures Reached(ms + [Machine(aOp[..], pc')], sz, trace + [Operation(op, bit)], aOp[..], pc')
    ensures pc <= pc' && (pc' == pc ==> aOp[pc] == old(aOp[pc]) && 0 < aOp[pc + 1] < old(aOp[pc + 1]))
  {
    op := aOp[pc];
    ghost var ops := aOp[..];
    bit, pc' := Fetch(aOp, pc, sz);
    ReachedNext(ms, sz, trace, ops, pc, Operation(op, bit), aOp[..], pc');
  }

  /** The two sets differ in i, and in nothing smaller. */
  ghost predicate DifferFirstAt(linear: set<nat>, contents: set<nat>, i: int) {
    i > 0 && (i in linear <==> i !in contents) && forall j: nat | j < i :: j in linear <==> j in contents
  }

  /** Compare the linear array with the Bitvec: 0 if they agree, or the first index where not. */
  method Compare(pBitvec: Bitvec, pV: seq<bv8>, ghost linear: set<nat>, sz: nat) returns (rc: int)
    requires pBitvec.Valid() && pBitvec.iSize == sz < TWO31 && sz < 8 * |pV| && Represents(pV, linear, sz)
    ensures if rc == 0 then linear == pBitvec.contents else DifferFirstAt(linear, pBitvec.contents, rc)
  {
    var t0 := BitvecTest(null, 0);
    var t1 := BitvecTest(pBitvec, sz + 1);
    var t2 := BitvecTest(pBitvec, 0);
    rc := (if t0 then 1 else 0) + (if t1 then 1 else 0) + (if t2 then 1 else 0) + (pBitvec.iSize - sz);
    var i := 1;
    while i <= sz
      invariant 1 <= i <= sz + 1 && rc == 0
      invariant forall j: nat | j < i :: j in linear <==> j in pBitvec.contents
    {
      var b := BitvecTest(pBitvec, i);
      if TestMask(pV, i) != b { return i; }
      i := i + 1;
    }
  }

  /** Apply one operation to both; opcode 5 leaves the Bitvec alone. */
  method Apply(pBitvec: Bitvec, pV: seq<bv8>, sz: nat, op: int, bit: nat, enough: bool, ghost trace: seq<Operation>)
    returns (pV': seq<bv8>, code: Code)
    requires pBitvec.Valid() && pBitvec.iSize == sz && 1 <= bit <= sz < 8 * |pV|
    requires Represents(pV, Linear(trace), sz) && pBitvec.contents == Vector(trace)
    modifies pBitvec.Repr
    ensures pBitvec.Valid() && fresh(pBitvec.Repr - old(pBitvec.Repr)) && |pV'| == |pV|
    ensures Represents(pV', Linear(trace + [Operation(op, bit)]), sz)
    ensures enough ==> code == OK
    ensures code == OK ==> pBitvec.contents == Vector(trace + [Operation(op, bit)])
  {
    code := OK;
    assert (trace + [Operation(op, bit)])[..|trace|] == trace;
    if op % 2 != 0 {
      pV' := SetLinear(pV, Linear(trace), sz, bit);
      if op != 5 { code := BitvecSet(pBitvec, bit, enough); }
    } else {
      pV' := ClearLinear(pV, Linear(trace), sz, bit);
      pBitvec.InRangeIsWithinArrays(bit);
      BitvecClear(pBitvec, bit);
    }
  }

  /** The linear array and the Bitvec hold what the trace has made of them. */
  ghost predicate Reflects(pBitvec: Bitvec, pV: seq<bv8>, sz: nat, trace: seq<Operation>)
    reads pBitvec, pBitvec.Repr
  {
    && pBitvec.Valid() && pBitvec.iSize == sz < 8 * |pV|
    && Represents(pV, Linear(trace), sz) && pBitvec.contents == Vector(trace)
  }

  /** Run the program up to its halt, or until memory runs out. */
  method RunProgram(pBitvec: Bitvec, pV: seq<bv8>, sz: nat, aOp: array<int>, enough: bool)
    returns (pV': seq<bv8>, code: Code, ghost trace: seq<Operation>)
    requires sz > 0 && IsProgram(aOp[..], 0) && Reflects(pBitvec, pV, sz, [])
    modifies aOp, pBitvec.Repr
    ensures enough ==> code == OK
    ensures code == OK ==> Reflects(pBitvec, pV', sz, trace) && IsExecution(old(aOp[..]), sz, trace)
    ensures code == OK && old(!InducesFault(aOp[..], 0)) ==> Linear(trace) == Vector(trace)
  {
    ghost var ms := [Machine(aOp[..], 0)];
    pV', code, trace := pV, OK, [];
    var pc: nat := 0;
    while aOp[pc] != 0
      invariant code == OK && Reached(ms, sz, trace, aOp[..], pc) && ms[0] == Machine(old(aOp[..]), 0)
      invariant Reflects(pBitvec, pV', sz, trace) && fresh(pBitvec.Repr - old(pBitvec.Repr))
      decreases aOp.Length - pc, if aOp[pc] != 0 then aOp[pc + 1] else 0
    {
      var op, bit;
      op, bit, pc := FetchNext(aOp, pc, sz, ms, trace);
      ms := ms + [Machine(aOp[..], pc)];
      pV', code := Apply(pBitvec, pV', sz, op, bit, enough, trace);
      if code != OK { return; }
      trace := trace + [Operation(op, bit)];
    }
    if !InducesFault(ms[0].ops, 0) {
      NoFaultNoDifference(ms, sz, trace, |trace|);
      assert trace[..|trace|] == trace;
    }
  }

  /** Every run of a program returns 0 if the linear array and the Bitvec hold the same bits in the
      end, and the first bit in which they differ otherwise, unless memory runs out.  A program that
      does not inject a fault always returns 0 then. */
  method BuiltinTest(z: Sizes, sz: nat, aOp: array<int>, enough: bool) returns (rc: int, ghost trace: seq<Operation>)
    requires IsSizes(z) && 0 < sz < TWO31 && IsProgram(aOp[..], 0)
    modifies aOp
    ensures enough ==> rc != -1
    ensures rc == -1 || IsExecution(old(aOp[..]), sz, trace)
    ensures rc == 0 ==> Linear(trace) == Vector(trace)
    ensures rc != 0 && rc != -1 ==> DifferFirstAt(Linear(trace), Vector(trace), rc)
    ensures old(!InducesFault(aOp[..], 0)) ==> rc == 0 || rc == -1
  {
    trace := [];
    var pBitvec := BitvecCreate(z, sz, enough);
    var ok := true;
    if !enough { ok := *; }
    if pBitvec == null || !ok { return -1, []; }
    var pV := Zeros((sz + 7) / 8 + 1);
    var nullSet := BitvecSet(null, 1, enough);
    BitvecClear(null, 1);
    var code;
    pV, code, trace := RunProgram(pBitvec, pV, sz, aOp, enough);
    if code != OK { return -1, trace; }
    rc := Compare(pBitvec, pV, Linear(trace), sz);
  }
}
