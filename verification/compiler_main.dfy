/** Compiler correctness as a reader wants it, and the one optimiser rule that needs care. */
module CompilerMain {
  import opened Objects
  import opened ObjectOperators
  import opened Bytecode
  import opened FuncState
  import opened Compiler
  import opened CompilerShape
  import opened CompilerProof
  import opened CompilerLimits

  /**
   * The optimised code of e, run by the machine, fails exactly when e does, and otherwise puts the value of e into the
   * register on top of the target stack and changes no local and nothing in the heap.
   */
  lemma {:induction false} ExpressionIsCompiledCorrectly(ops: Ops, e: Expr, n: nat, m: Machine)
    requires 0 < n && WellFormed(e, Start(n).vlocals) && NoStrayJump(e, Start(n))
    requires FitsFrame(e, n) && n + Depth(e) <= |m.regs|
    ensures var r := Compile(e, Start(n));
            var end := Run(Interpreter(ops, r.lits), r.code, 0, m);
            match Eval(ops, m, e)
            case None => end == None
            case Some(v) => end.Some? && Reg(end.value, Top(r)) == v && AgreeBelow(m, end.value, n)
  {
    hide Compile, Eval, NoStrayJump, WellFormed;
    CompilesIff(e, n);
    var fs, r := Start(n), Compile(e, Start(n));
    var step := Interpreter(ops, r.lits);
    InterpreterInterprets(ops, r.lits);
    CompileGrows(e, fs);
    CompileCorrect(step, ops, r.lits, e, fs, |m.regs|);
    assert Open(fs, 0, |m.regs|) && Computes(step, ops, e, fs, r, 0, m);
    assert Run(step, fs.code, 0, m) == Some(m);
  }

  /** In particular where no condition of ?: is a bare local, whatever else the expression holds. */
  lemma {:induction false} NoBareConditionIsCompiledCorrectly(ops: Ops, e: Expr, n: nat, m: Machine)
    requires 0 < n && WellFormed(e, Start(n).vlocals) && NoBareCondition(e)
    requires FitsFrame(e, n) && n + Depth(e) <= |m.regs|
    ensures var r := Compile(e, Start(n));
            var end := Run(Interpreter(ops, r.lits), r.code, 0, m);
            if Eval(ops, m, e) == None then end == None
            else end.Some? && Some(Reg(end.value, Top(r))) == Eval(ops, m, e) && AgreeBelow(m, end.value, n)
  {
    NoBareConditionIsSafe(e, Start(n));
    ExpressionIsCompiledCorrectly(ops, e, n, m);
  }

  /**
   * Where both operands have a value, && is false exactly if one of them is, || exactly if both are, and ?: has the
   * value of the branch that its condition chooses. The operand that is not needed may fail.
   */
  lemma {:induction false} ConnectivesAreLogical(ops: Ops, m: Machine, a: Expr, b: Expr, c: Expr)
    requires Eval(ops, m, a).Some? && Eval(ops, m, b).Some?
    ensures var x, y := Eval(ops, m, a).value, Eval(ops, m, b).value;
            var both, either := Eval(ops, m, And(a, b)), Eval(ops, m, Or(a, b));
            && both.Some? && both.value in {x, y} && (ops.isFalse(both.value) <==> ops.isFalse(x) || ops.isFalse(y))
            && either.Some? && either.value in {x, y}
            && (ops.isFalse(either.value) <==> ops.isFalse(x) && ops.isFalse(y))
            && (ops.isFalse(x) ==> Eval(ops, m, And(a, c)) == Some(x) && Eval(ops, m, Cond(a, c, b)) == Some(y))
            && (!ops.isFalse(x) ==> Eval(ops, m, Or(a, c)) == Some(x) && Eval(ops, m, Cond(a, b, c)) == Some(y))
  {
  }

  // ---------- JZ after a comparison ----------

  /** Whether JZ, executed after cmp, jumps. */
  function JumpsAfter(ops: Ops, lits: seq<SQObject>, cmp: Instr, jz: Instr, m: Machine): Option<bool> {
    match Step(ops, lits, cmp, m)
    case None => None
    case Some(m1) => if Jump(ops, jz, m1).Some? then Some(Jump(ops, jz, m1).value.1) else None
  }

  function JumpsFused(ops: Ops, vlocals: seq<bool>, cmp: Instr, jz: Instr, m: Machine): Option<bool> {
    match Fuse(vlocals, cmp, jz)
    case None => None
    case Some(f) => if Jump(ops, f, m).Some? then Some(Jump(ops, f, m).value.1) else None
  }

  ghost predicate FusedJumpAgrees(lits: seq<SQObject>, vlocals: seq<bool>, cmp: Instr, jz: Instr) {
    forall ops, m: Machine :: cmp.arg0 < |m.regs| && jz.arg0 < |m.regs| ==>
      JumpsAfter(ops, lits, cmp, jz, m) == JumpsFused(ops, vlocals, cmp, jz, m)
  }

  /** Operations under which every comparison is false. */
  function NothingIsLess(): Ops {
    Ops((op, op3, h, a, b) => Some(if op == OP_CMP then Bool(false) else b), (op, a) => Some(a),
        (a, b) => a == b, a => a == Bool(false),
        (h, t, a, b) => None, (op, h, a, b, c) => None, (h, a, b) => None, (h, k) => Null, (h, k, v) => h)
  }

  /** The fused jump is right, over all operations and machines, exactly when JZ tests the target of the comparison. */
  lemma FusedJumpIsRightIff(lits: seq<SQObject>, vlocals: seq<bool>, cmp: Instr, jz: Instr, heap: Heap)
    requires cmp.op == OP_CMP && 0 <= cmp.arg1 < 0xFF && 0 <= cmp.arg0 < 256 && jz.op == OP_JZ && 0 <= jz.arg0 < 256
    ensures FusedJumpAgrees(lits, vlocals, cmp, jz) <==> jz.arg0 == cmp.arg0
  {
    if jz.arg0 != cmp.arg0 {
      var ops, m := NothingIsLess(), Machine(seq(256, _ => Bool(true)), heap);
      assert JumpsAfter(ops, lits, cmp, jz, m) == Some(false);
      assert JumpsFused(ops, vlocals, cmp, jz, m) == Some(true);
    }
  }

  function CompareValues(op3: int, a: SQObject, b: SQObject): Option<SQObject> {
    match ObjCmp(a, b, Failed)
    case Failed => None
    case Compared(r) => Some(CompareOp(op3, r))
  }

  /** The machine's own comparison, equality and truth on plain values; rest decides everything else. */
  function MachineOps(rest: Ops): Ops {
    rest.(binary := (op, op3, h, a, b) =>
            if op == OP_CMP && IsPlain(a) && IsPlain(b) then CompareValues(op3, a, b)
              else rest.binary(op, op3, h, a, b),
          equal := (a, b) => if IsNumeric(a) && IsNumeric(b) && !SameType(a, b) then rest.equal(a, b) else a == b,
          isFalse := a => IsFalse(a))
  }

  lemma MachineCompares(rest: Ops, op3: int, h: Heap, a: SQObject, b: SQObject)
    requires IsPlain(a) && IsPlain(b)
    ensures MachineOps(rest).binary(OP_CMP, op3, h, a, b) == CompareValues(op3, a, b)
  {
  }

  lemma MachineDecides(rest: Ops, a: SQObject, b: SQObject)
    ensures MachineOps(rest).isFalse(a) == IsFalse(a)
    ensures !(IsNumeric(a) && IsNumeric(b)) ==> MachineOps(rest).equal(a, b) == (a == b)
  {
  }

  /** (x < y) == (z ? false : true) */
  function StrayJump(): Expr {
    Binary(OP_EQ, 0, Binary(OP_CMP, CMP_L, Local(1), Local(2)), Cond(Local(3), Const(Bool(false)), Const(Bool(true))))
  }

  function StrayJumpCode(): seq<Instr> {
    [Instr(OP_JCMP, 2, 2, 1, CMP_L), Instr(OP_LOADBOOL, 5, 0, 0, 0), Instr(OP_JMP, 0, 1, 0, 0),
     Instr(OP_LOADBOOL, 5, 1, 0, 0),
     Instr(OP_EQ, 4, 5, 4, 0)]
  }

  // the function state before, within and after the condition
  function Compared(): FState {
    FState([Instr(OP_CMP, 4, 2, 1, 3)], true, [true, true, true, true, false], [4], [], 5, false)
  }

  function Jumped(): FState {
    FState([Instr(OP_JCMP, 2, 0, 1, 3)], true, [true, true, true, true, false, false], [4, 5], [], 6, false)
  }

  function Chosen(): FState {
    Jumped().(code := [Instr(OP_JCMP, 2, 0, 1, 3), Instr(OP_LOADBOOL, 5, 0, 0, 0), Instr(OP_JMP, 0, 0, 0, 0)],
              stacksize := 7)
  }

  function Decided(): FState {
    Chosen().(code := StrayJumpCode()[..4], opt := false)
  }

  lemma ComparisonIsCompiledTo()
    ensures Compile(Binary(OP_CMP, CMP_L, Local(1), Local(2)), Start(4)) == Compared()
  {
    hide Compile, EmitBinary;
    CompileBinary(OP_CMP, CMP_L, Local(1), Local(2), Start(4));
    CompileLeaves(1, Null, Start(4));
    CompileLeaves(2, Null, PushRegister(Start(4), 1));
    var f2 := PushRegister(PushRegister(Start(4), 1), 2);
    assert Compile(Local(2), Compile(Local(1), Start(4))) == f2;
    assert f2 == FState([], true, [true, true, true, true], [1, 2], [], 4, false);
    ComparisonIsEmitted(f2);
  }

  lemma ComparisonIsEmitted(f2: FState)
    requires f2 == FState([], true, [true, true, true, true], [1, 2], [], 4, false)
    ensures EmitBinary(OP_CMP, 3, f2) == Compared()
  {
    var g := FState([], true, [true, true, true, true, false], [4], [], 5, false);
    assert PopTarget(f2) == f2.(targets := [1]);
    assert PushTarget(PopTarget(PopTarget(f2))) == g;
    assert Emit(g, Make(OP_CMP, 4, 2, 1, 3)) == Compared();
  }

  lemma ConditionIsCompiledTo()
    ensures BeginCond(Compile(Local(3), Compared())) == Jumped()
  {
    hide Compile;
    CompileLeaves(3, Null, Compared());
    var f := PushRegister(Compared(), 3);
    assert PopTarget(f) == Compared();
    assert Emit(Compared(), Make(OP_JZ, 3, 0, 0, 0)) == Compared().(code := [Instr(OP_JCMP, 2, 0, 1, 3)]);
  }

  function LoadBool(t: int, b: bool): Instr {
    Instr(OP_LOADBOOL, t, if b then 1 else 0, 0, 0)
  }

  lemma ConstantIsLoaded(fs: FState, b: bool)
    requires fs.vlocals == Jumped().vlocals && 6 <= fs.stacksize <= 7 && !fs.failed && NothingToFuse(fs)
    ensures CompileConst(Bool(b), fs) ==
            FState(fs.code + [LoadBool(6, b)], true, fs.vlocals + [false], fs.targets + [6], fs.lits, 7, false)
  {
    assert PushTarget(fs) == fs.(vlocals := fs.vlocals + [false], targets := fs.targets + [6], stacksize := 7);
  }

  lemma ConstantIsMoved(fs: FState, code: seq<Instr>, b: bool)
    requires fs == FState(code + [LoadBool(6, b)], true, Jumped().vlocals + [false], fs.targets, fs.lits, 7, false)
    requires fs.targets != [] && Top(fs) == 6
    ensures MoveTo(fs, 5) ==
            FState(code + [LoadBool(5, b)], false, Jumped().vlocals, fs.targets[..|fs.targets| - 1], fs.lits, 7, false)
  {
    assert PopTarget(fs) == fs.(vlocals := Jumped().vlocals, targets := fs.targets[..|fs.targets| - 1]);
    assert fs.code[..|code|] == code;
  }

  lemma ConstantIsCompiledTo(fs: FState, b: bool)
    requires fs.vlocals == Jumped().vlocals && 6 <= fs.stacksize <= 7 && !fs.failed && NothingToFuse(fs)
    ensures MoveTo(CompileConst(Bool(b), fs), 5) ==
            fs.(code := fs.code + [LoadBool(5, b)], opt := false, stacksize := 7)
  {
    hide MoveTo, CompileConst;
    ConstantIsLoaded(fs, b);
    ConstantIsMoved(CompileConst(Bool(b), fs), fs.code, b);
  }

  lemma BranchesAreCompiledTo()
    ensures MiddleCond(5, Compile(Const(Bool(false)), Jumped())) == Chosen()
    ensures EndCond(0, 2, 5, Compile(Const(Bool(true)), Chosen())) == Decided()
  {
    hide Compile, MoveTo, CompileConst;
    CompileLeaves(0, Bool(false), Jumped());
    CompileLeaves(0, Bool(true), Chosen());
    ConstantIsCompiledTo(Jumped(), false);
    ConstantIsCompiledTo(Chosen(), true);
    assert EndCond(0, 2, 5, CompileConst(Bool(true), Chosen())).code == StrayJumpCode()[..4];
  }

  lemma StrayJumpIsCompiledTo()
    ensures Compile(StrayJump(), Start(4)) == Compared().(code := StrayJumpCode(), stacksize := 7)
  {
    hide Compile, BeginCond, MiddleCond, EndCond, EmitBinary;
    ComparisonIsCompiledTo();
    ConditionIsCompiledTo();
    BranchesAreCompiledTo();
    CompileCond(Local(3), Const(Bool(false)), Const(Bool(true)), Compared(), Jumped(), Chosen(),
                Compile(Const(Bool(true)), Chosen()));
    CompileBinary(OP_EQ, 0, StrayJump().first, StrayJump().second, Start(4));
    EqualityIsCompiledTo();
  }

  lemma EqualityIsCompiledTo()
    ensures EmitBinary(OP_EQ, 0, Decided()) == Compared().(code := StrayJumpCode(), stacksize := 7)
  {
    var g := PushTarget(PopTarget(PopTarget(Decided())));
    assert g == Compared().(code := StrayJumpCode()[..4], opt := false, stacksize := 7);
    assert StrayJumpCode()[..4] + [Instr(OP_EQ, 4, 5, 4, 0)] == StrayJumpCode();
  }

  /** After `this`, three locals x >= y and z, which is not false, and three more registers. */
  predicate IsStrayInput(m: Machine, x: int, y: int) {
    |m.regs| == 7 && m.regs[1] == Integer(x) && m.regs[2] == Integer(y) && x >= y && !IsFalse(m.regs[3])
  }

  /**
   * The rule without its side condition, under the machine's own operators. The expression is true. The code leaves the
   * comparison's target alone, so that it yields true only if that register happened to hold true before.
   */
  lemma {:induction false} StrayJumpIsMiscompiled(rest: Ops, m: Machine, x: int, y: int)
    requires IsStrayInput(m, x, y)
    ensures var r := Compile(StrayJump(), Start(4));
            var end := Run(Interpreter(MachineOps(rest), r.lits), r.code, 0, m);
            && Eval(MachineOps(rest), m, StrayJump()) == Some(Bool(true))
            && end.Some? && Reg(end.value, Top(r)) == Bool(m.regs[4] == Bool(true))
  {
    hide Compile;
    StrayJumpIsCompiledTo();
    StrayJumpRuns(rest, m, x, y);
    StrayJumpEvaluates(rest, m, x, y);
  }

  lemma {:induction false} StrayJumpEvaluates(rest: Ops, m: Machine, x: int, y: int)
    requires IsStrayInput(m, x, y)
    ensures Eval(MachineOps(rest), m, StrayJump()) == Some(Bool(true))
  {
    var ops := MachineOps(rest);
    MachineCompares(rest, CMP_L, m.heap, Integer(x), Integer(y));
    assert CompareValues(CMP_L, Integer(x), Integer(y)) == Some(Bool(false));
    assert Eval(ops, m, Binary(OP_CMP, CMP_L, Local(1), Local(2))) == Some(Bool(false));
    MachineDecides(rest, m.regs[3], Null);
    MachineDecides(rest, Bool(false), Bool(false));
    assert Eval(ops, m, Cond(Local(3), Const(Bool(false)), Const(Bool(true)))) == Some(Bool(false));
  }

  lemma {:induction false} StrayJumpRuns(rest: Ops, m: Machine, x: int, y: int)
    requires IsStrayInput(m, x, y)
    ensures var end := Run(Interpreter(MachineOps(rest), []), StrayJumpCode(), 0, m);
            end.Some? && Reg(end.value, 4) == Bool(m.regs[4] == Bool(true))
  {
    hide Run;
    var step, code := Interpreter(MachineOps(rest), []), StrayJumpCode();
    MachineCompares(rest, CMP_L, m.heap, Integer(x), Integer(y));
    assert CompareValues(CMP_L, Integer(x), Integer(y)) == Some(Bool(false));
    MachineDecides(rest, Bool(false), Null);
    MachineDecides(rest, m.regs[4], Bool(true));
    var m1 := Put(m, 5, Bool(true));
    var m2 := Put(m1, 4, Bool(m.regs[4] == Bool(true)));
    RunsOn(step, code, 0, m, m, 2);
    RunsOn(step, code, 3, m, m1, 0);
    RunsOn(step, code, 4, m1, m2, 0);
    RunAtEnd(step, code, m2);
  }

  lemma RunsOn(step: Stepper<Machine>, code: seq<Instr>, pc: nat, m: Machine, m1: Machine, skipped: nat)
    requires pc < |code| && step(code[pc], m) == Some((m1, skipped))
    ensures Run(step, code, pc, m) == Run(step, code, pc + 1 + skipped, m1)
  {
  }
}
