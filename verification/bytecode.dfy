/** The part of the Squirrel register machine that expressions are compiled to. */
module Bytecode {
  import opened Objects

  /** Everything but the registers of the running frame: tables, arrays, captured variables. */
  type Heap(!new)

  datatype Option<+T> = None | Some(value: T)

  /** Operation codes, by their numbers. */
  type Opcode = int

  const OP_LOAD := 0x01
  const OP_LOADINT := 0x02
  const OP_LOADFLOAT := 0x03
  const OP_DLOAD := 0x04
  const OP_PREPCALL := 0x07
  const OP_PREPCALLK := 0x08
  const OP_GETK := 0x09
  const OP_MOVE := 0x0A
  const OP_NEWSLOT := 0x0B
  const OP_SET := 0x0D
  const OP_GET := 0x0E
  const OP_EQ := 0x0F
  const OP_NE := 0x10
  const OP_ADD := 0x11
  const OP_SUB := 0x12
  const OP_MUL := 0x13
  const OP_DIV := 0x14
  const OP_BITW := 0x16
  const OP_LOADNULLS := 0x18
  const OP_LOADBOOL := 0x1A
  const OP_DMOVE := 0x1B
  const OP_JMP := 0x1C
  const OP_JCMP := 0x1D
  const OP_JZ := 0x1E
  const OP_SETOUTER := 0x1F
  const OP_GETOUTER := 0x20
  const OP_APPENDARRAY := 0x22
  const OP_CMP := 0x28
  const OP_EXISTS := 0x29
  const OP_INSTANCEOF := 0x2A
  const OP_AND := 0x2B
  const OP_OR := 0x2C
  const OP_NEG := 0x2D
  const OP_NOT := 0x2E
  const OP_BWNOT := 0x2F

  /** The four operands of an instruction: arg1 is 32 bits wide, the others one byte. */
  datatype Instr = Instr(op: Opcode, arg0: int, arg1: int, arg2: int, arg3: int)

  const MAX_FUNC_STACKSIZE := 0xFF

  // the source of an APPENDARRAY value
  const AAT_STACK := 0
  const AAT_LITERAL := 1
  const AAT_INT := 2
  const AAT_FLOAT := 3
  const AAT_BOOL := 4

  /**
   * What the machine needs to know of values: partial operations over them and over a heap. get is told whether the
   * object is in register 0, which holds `this`: a key that it lacks is then looked for in the root table.
   */
  datatype Ops = Ops(
    binary: (Opcode, int, Heap, SQObject, SQObject) -> Option<SQObject>,
    unary: (Opcode, SQObject) -> Option<SQObject>,
    equal: (SQObject, SQObject) -> bool,
    isFalse: SQObject -> bool,
    get: (Heap, bool, SQObject, SQObject) -> Option<SQObject>,
    store: (Opcode, Heap, SQObject, SQObject, SQObject) -> Option<Heap>,
    append: (Heap, SQObject, SQObject) -> Option<Heap>,
    getOuter: (Heap, int) -> SQObject,
    setOuter: (Heap, int, SQObject) -> Heap)

  /** The registers of the running frame, and the heap. */
  datatype Machine = Machine(regs: seq<SQObject>, heap: Heap)

  function Reg(m: Machine, r: int): SQObject {
    if 0 <= r < |m.regs| then m.regs[r] else Null
  }

  function Put(m: Machine, r: int, v: SQObject): Machine {
    if 0 <= r < |m.regs| then m.(regs := m.regs[r := v]) else m
  }

  function Lit(lits: seq<SQObject>, k: int): SQObject {
    if 0 <= k < |lits| then lits[k] else Null
  }

  function PutNulls(m: Machine, from: int, count: int): Machine {
    m.(regs := seq(|m.regs|, r requires 0 <= r < |m.regs| => if from <= r < from + count then Null else m.regs[r]))
  }

  function PutResult(m: Machine, r: int, v: Option<SQObject>): Option<Machine> {
    match v
    case None => None
    case Some(x) => Some(Put(m, r, x))
  }

  predicate IsBinary(op: Opcode) {
    op == OP_ADD || op == OP_SUB || op == OP_MUL || op == OP_DIV || op == OP_BITW || op == OP_CMP || op == OP_EXISTS ||
      op == OP_INSTANCEOF
  }

  predicate IsUnary(op: Opcode) {
    op == OP_NEG || op == OP_NOT || op == OP_BWNOT
  }

  predicate IsJump(op: Opcode) {
    op == OP_JMP || op == OP_JZ || op == OP_JCMP || op == OP_AND || op == OP_OR
  }

  predicate IsLoad(op: Opcode) {
    op == OP_LOAD || op == OP_LOADINT || op == OP_LOADFLOAT || op == OP_LOADBOOL
  }

  /** The instruction computes one value, for its target arg0. */
  predicate IsValue(op: Opcode) {
    IsBinary(op) || IsUnary(op) || IsLoad(op) || op == OP_MOVE || op == OP_GET || op == OP_GETK || op == OP_EQ ||
      op == OP_NE || op == OP_GETOUTER
  }

  function LoadedValue(lits: seq<SQObject>, op: Opcode, arg1: int): SQObject {
    if op == OP_LOAD then Lit(lits, arg1)
    else if op == OP_LOADINT then Integer(arg1)
    else if op == OP_LOADFLOAT then Float(arg1)
    else Bool(arg1 != 0)
  }

  function ComputedValue(ops: Ops, lits: seq<SQObject>, i: Instr, m: Machine): Option<SQObject> {
    if IsLoad(i.op) then Some(LoadedValue(lits, i.op, i.arg1))
    else if i.op == OP_MOVE then Some(Reg(m, i.arg1))
    else if i.op == OP_GET then ops.get(m.heap, i.arg1 == 0, Reg(m, i.arg1), Reg(m, i.arg2))
    else if i.op == OP_GETK then ops.get(m.heap, i.arg2 == 0, Reg(m, i.arg2), Lit(lits, i.arg1))
    else if i.op == OP_EQ || i.op == OP_NE then
      var other := if i.arg3 != 0 then Lit(lits, i.arg1) else Reg(m, i.arg1);
      Some(Bool(ops.equal(Reg(m, i.arg2), other) == (i.op == OP_EQ)))
    else if i.op == OP_GETOUTER then Some(ops.getOuter(m.heap, i.arg1))
    else if IsUnary(i.op) then ops.unary(i.op, Reg(m, i.arg1))
    else ops.binary(i.op, i.arg3, m.heap, Reg(m, i.arg2), Reg(m, i.arg1))
  }

  function AppendedValue(lits: seq<SQObject>, i: Instr, m: Machine): SQObject {
    if i.arg2 == AAT_STACK then Reg(m, i.arg1)
    else if i.arg2 == AAT_LITERAL then Lit(lits, i.arg1)
    else if i.arg2 == AAT_INT then Integer(i.arg1)
    else if i.arg2 == AAT_FLOAT then Float(i.arg1)
    else Bool(i.arg1 != 0)
  }

  /** One instruction that is not a jump. None is an exception. */
  function Step(ops: Ops, lits: seq<SQObject>, i: Instr, m: Machine): Option<Machine> {
    if IsValue(i.op) then PutResult(m, i.arg0, ComputedValue(ops, lits, i, m))
    else if i.op == OP_LOADNULLS then Some(PutNulls(m, i.arg0, i.arg1))
    else if i.op == OP_DLOAD then Some(Put(Put(m, i.arg0, Lit(lits, i.arg1)), i.arg2, Lit(lits, i.arg3)))
    else if i.op == OP_DMOVE then
      var m1 := Put(m, i.arg0, Reg(m, i.arg1));
      Some(Put(m1, i.arg2, Reg(m1, i.arg3)))
    else if i.op == OP_PREPCALL then Prepared(i, m, ops.get(m.heap, i.arg2 == 0, Reg(m, i.arg2), Reg(m, i.arg1)))
    else if i.op == OP_PREPCALLK then Prepared(i, m, ops.get(m.heap, i.arg2 == 0, Reg(m, i.arg2), Lit(lits, i.arg1)))
    else if i.op == OP_APPENDARRAY then
      match ops.append(m.heap, Reg(m, i.arg0), AppendedValue(lits, i, m))
      case None => None
      case Some(h) => Some(m.(heap := h))
    else if i.op == OP_SETOUTER then
      Some(KeptCopy(i, m.(heap := ops.setOuter(m.heap, i.arg1, Reg(m, i.arg2))), Reg(m, i.arg2)))
    else if i.op == OP_SET || i.op == OP_NEWSLOT then
      match ops.store(i.op, m.heap, Reg(m, i.arg1), Reg(m, i.arg2), Reg(m, i.arg3))
      case None => None
      case Some(h) => Some(KeptCopy(i, m.(heap := h), Reg(m, i.arg3)))
    else None
  }

  /** An assignment leaves the assigned value in its target, unless the target is the mark 0xFF. */
  function KeptCopy(i: Instr, m: Machine, v: SQObject): Machine {
    if i.arg0 != 0xFF then Put(m, i.arg0, v) else m
  }

  function Prepared(i: Instr, m: Machine, closure: Option<SQObject>): Option<Machine> {
    PutResult(Put(m, i.arg3, Reg(m, i.arg2)), i.arg0, closure)
  }

  /** A jump: the state it leaves and whether it is taken. */
  function Jump(ops: Ops, i: Instr, m: Machine): Option<(Machine, bool)> {
    if i.op == OP_JZ then Some((m, ops.isFalse(Reg(m, i.arg0))))
    else if i.op == OP_JCMP then
      match ops.binary(OP_CMP, i.arg3, m.heap, Reg(m, i.arg2), Reg(m, i.arg0))
      case None => None
      case Some(v) => Some((m, ops.isFalse(v)))
    else if i.op == OP_AND then
      var v := Reg(m, i.arg2);
      if ops.isFalse(v) then Some((Put(m, i.arg0, v), true)) else Some((m, false))
    else if i.op == OP_OR then
      var v := Reg(m, i.arg2);
      if !ops.isFalse(v) then Some((Put(m, i.arg0, v), true)) else Some((m, false))
    else Some((m, true))
  }

  /** One instruction: the state it leaves and how many of the following instructions it skips. None is an exception. */
  function Exec(ops: Ops, lits: seq<SQObject>, i: Instr, m: Machine): Option<(Machine, nat)> {
    if IsJump(i.op) then
      match Jump(ops, i, m)
      case None => None
      case Some((m1, taken)) => Some((m1, if taken && i.arg1 > 0 then i.arg1 else 0))
    else
      match Step(ops, lits, i, m)
      case None => None
      case Some(m1) => Some((m1, 0))
  }

  type Stepper<!M> = (Instr, M) -> Option<(M, nat)>

  function Interpreter(ops: Ops, lits: seq<SQObject>): Stepper<Machine> {
    (i, m) => Exec(ops, lits, i, m)
  }

  /** Runs from pc to the end of the code. Expressions only jump forward. */
  function Run<M>(step: Stepper<M>, code: seq<Instr>, pc: nat, m: M): Option<M>
    decreases |code| - pc
  {
    if pc >= |code| then Some(m)
    else
      match step(code[pc], m)
      case None => None
      case Some((m1, skipped)) => Run(step, code, pc + 1 + skipped, m1)
  }

  /** Every jump at or after pc0 lands after itself, and not past `limit`. */
  ghost predicate JumpsWithin(code: seq<Instr>, pc0: nat, limit: int) {
    forall k :: pc0 <= k < |code| && IsJump(code[k].op) ==> 0 <= code[k].arg1 && k + 1 + code[k].arg1 <= limit
  }

  ghost predicate SkipsByArg1<M(!new)>(step: Stepper<M>) {
    forall i, m :: step(i, m).Some? && step(i, m).value.1 > 0 ==> IsJump(i.op) && step(i, m).value.1 == i.arg1
  }

  function Then<M>(o: Option<M>, step: Stepper<M>, code: seq<Instr>, pc: nat): Option<M> {
    match o
    case None => None
    case Some(m) => Run(step, code, pc, m)
  }

  /** step executes the instructions as Exec says. */
  ghost predicate Interprets(step: Stepper<Machine>, ops: Ops, lits: seq<SQObject>) {
    && SkipsByArg1(step)
    && forall i, m {:trigger Exec(ops, lits, i, m)} :: step(i, m) == Exec(ops, lits, i, m)
  }

  lemma InterpreterInterprets(ops: Ops, lits: seq<SQObject>)
    ensures Interprets(Interpreter(ops, lits), ops, lits)
  {
  }

  /** Code whose jumps stay inside it runs to its end before what follows it. */
  lemma {:induction false} RunPrefix<M(!new)>(step: Stepper<M>, p: seq<Instr>, s: seq<Instr>, pc: nat, m: M)
    requires SkipsByArg1(step) && pc <= |p| && JumpsWithin(p, pc, |p|)
    ensures Run(step, p + s, pc, m) == Then(Run(step, p, pc, m), step, p + s, |p|)
    decreases |p| - pc
  {
    if pc < |p| {
      assert (p + s)[pc] == p[pc];
      match step(p[pc], m)
      case None =>
      case Some((m1, skipped)) => RunPrefix(step, p, s, pc + 1 + skipped, m1);
    }
  }

  /** A run from pc does not depend on the code before pc. */
  lemma {:induction false} RunSuffix<M>(step: Stepper<M>, c: seq<Instr>, d: seq<Instr>, pc: nat, m: M)
    requires |c| == |d| && forall k :: pc <= k < |c| ==> c[k] == d[k]
    ensures Run(step, c, pc, m) == Run(step, d, pc, m)
    decreases |c| - pc
  {
    if pc < |c| {
      match step(c[pc], m)
      case None =>
      case Some((m1, skipped)) => RunSuffix(step, c, d, pc + 1 + skipped, m1);
    }
  }

  /** The effect of one instruction that is not a jump. */
  function After<M>(step: Stepper<M>, i: Instr, o: Option<M>): Option<M> {
    match o
    case None => None
    case Some(m) =>
      match step(i, m)
      case None => None
      case Some((m1, _)) => Some(m1)
  }

  /** Running one more instruction after the code. */
  lemma {:induction false} RunSnoc<M(!new)>(step: Stepper<M>, p: seq<Instr>, i: Instr, pc: nat, m: M)
    requires SkipsByArg1(step) && pc <= |p| && JumpsWithin(p, pc, |p|) && !IsJump(i.op)
    ensures Run(step, p + [i], pc, m) == After(step, i, Run(step, p, pc, m))
  {
    RunPrefix(step, p, [i], pc, m);
    match Run(step, p, pc, m)
    case None =>
    case Some(m1) => RunLast(step, p + [i], |p|, m1);
  }

  lemma {:induction false} RunLast<M>(step: Stepper<M>, code: seq<Instr>, pc: nat, m: M)
    requires |code| == pc + 1
    ensures Run(step, code, pc, m) == After(step, code[pc], Some(m))
  {
  }
}
