/** The code generated for an expression computes its value. */
module CompilerProof {
  import opened Objects
  import opened Bytecode
  import opened FuncState
  import opened Compiler
  import opened CompilerShape

  // ---------- what running an expression's code must leave behind ----------

  ghost predicate AgreeBelow(m: Machine, m': Machine, n: int) {
    m'.heap == m.heap && |m'.regs| == |m.regs| && forall r :: 0 <= r < n && r < |m.regs| ==> m'.regs[r] == m.regs[r]
  }

  /**
   * From o, the code fails where evaluation fails, and else leaves the value v in register t and the registers below
   * n alone.
   */
  ghost predicate Leaves(o: Option<Machine>, v: Option<SQObject>, o': Option<Machine>, n: int, t: int) {
    if o.None? || v.None? then o'.None?
    else o'.Some? && AgreeBelow(o.value, o'.value, n) && Reg(o'.value, t) == v.value
  }

  function EvalFrom(ops: Ops, o: Option<Machine>, e: Expr): Option<SQObject> {
    match o
    case None => None
    case Some(m) => Eval(ops, m, e)
  }

  /** Evaluation only looks at the named locals. */
  lemma {:induction false} EvalFrame(ops: Ops, m: Machine, m': Machine, e: Expr, vlocals: seq<bool>, n: int)
    requires AgreeBelow(m, m', n) && WellFormed(e, vlocals) && |vlocals| <= n
    ensures Eval(ops, m', e) == Eval(ops, m, e)
    decreases e
  {
    match e
    case Local(p) =>
    case Const(c) =>
    case Binary(op, op3, a, b) => EvalFrame(ops, m, m', a, vlocals, n); EvalFrame(ops, m, m', b, vlocals, n);
    case Unary(op, a) => EvalFrame(ops, m, m', a, vlocals, n);
    case Index(a, b) => EvalFrame(ops, m, m', a, vlocals, n); EvalFrame(ops, m, m', b, vlocals, n);
    case And(a, b) => EvalFrame(ops, m, m', a, vlocals, n); EvalFrame(ops, m, m', b, vlocals, n);
    case Or(a, b) => EvalFrame(ops, m, m', a, vlocals, n); EvalFrame(ops, m, m', b, vlocals, n);
    case Cond(c, a, b) =>
      EvalFrame(ops, m, m', c, vlocals, n); EvalFrame(ops, m, m', a, vlocals, n); EvalFrame(ops, m, m', b, vlocals, n);
  }

  // ---------- conditions on the code being built ----------

  /** The code before pc0 is settled, and everything emitted so far fits a frame of the given size. */
  ghost predicate Open(fs: FState, pc0: int, registers: int) {
    Segment(fs, pc0) && InFrame(fs.code, registers) && fs.stacksize <= registers
  }

  /** The previous instruction is a comparison that JZ would be fused with. */
  predicate EndsInCmp(fs: FState) {
    Previous(fs).Some? && Previous(fs).value.op == OP_CMP && Previous(fs).value.arg1 < 0xFF
  }

  /** A fusible comparison at the end of the code is the one that computed the target on top. */
  ghost predicate CmpIsTop(fs: FState)
    requires fs.targets != []
  {
    EndsInCmp(fs) ==> Previous(fs).value.arg0 == Top(fs)
  }

  /**
   * The optimiser fuses JZ with the comparison before it without looking at the register JZ tests. That is only wrong
   * where the condition of ?: is a bare local, since any other condition has just computed its own target.
   */
  predicate NoStrayJump(e: Expr, fs: FState) {
    match e
    case Local(_) => true
    case Const(_) => true
    case Binary(_, _, a, b) => NoStrayJump(a, fs) && NoStrayJump(b, Compile(a, fs))
    case Unary(_, a) => NoStrayJump(a, fs)
    case Index(a, b) => NoStrayJump(a, fs) && NoStrayJump(b, Compile(a, fs))
    case And(a, b) => NoStrayJump(a, fs) && NoStrayJump(b, BeginShortCircuit(OP_AND, Compile(a, fs)))
    case Or(a, b) => NoStrayJump(a, fs) && NoStrayJump(b, BeginShortCircuit(OP_OR, Compile(a, fs)))
    case Cond(c, a, b) =>
      var f1 := BeginCond(Compile(c, fs));
      && NoStrayJump(c, fs)
      && (c.Local? ==> !EndsInCmp(fs))
      && NoStrayJump(a, f1)
      && NoStrayJump(b, MiddleCond(Top(f1), Compile(a, f1)))
  }

  /** The condition of a ?: is never just a local. */
  predicate NoBareCondition(e: Expr) {
    match e
    case Local(_) => true
    case Const(_) => true
    case Binary(_, _, a, b) => NoBareCondition(a) && NoBareCondition(b)
    case Unary(_, a) => NoBareCondition(a)
    case Index(a, b) => NoBareCondition(a) && NoBareCondition(b)
    case And(a, b) => NoBareCondition(a) && NoBareCondition(b)
    case Or(a, b) => NoBareCondition(a) && NoBareCondition(b)
    case Cond(c, a, b) => !c.Local? && NoBareCondition(c) && NoBareCondition(a) && NoBareCondition(b)
  }

  lemma {:induction false} NoBareConditionIsSafe(e: Expr, fs: FState)
    requires NoBareCondition(e)
    ensures NoStrayJump(e, fs)
    decreases e
  {
    match e
    case Local(_) =>
    case Const(_) =>
    case Binary(_, _, a, b) => NoBareConditionIsSafe(a, fs); NoBareConditionIsSafe(b, Compile(a, fs));
    case Unary(_, a) => NoBareConditionIsSafe(a, fs);
    case Index(a, b) => NoBareConditionIsSafe(a, fs); NoBareConditionIsSafe(b, Compile(a, fs));
    case And(a, b) => NoBareConditionIsSafe(a, fs); NoBareConditionIsSafe(b, BeginShortCircuit(OP_AND, Compile(a, fs)));
    case Or(a, b) => NoBareConditionIsSafe(a, fs); NoBareConditionIsSafe(b, BeginShortCircuit(OP_OR, Compile(a, fs)));
    case Cond(c, a, b) =>
      NoBareConditionIsSafe(c, fs);
      var f1 := BeginCond(Compile(c, fs));
      NoBareConditionIsSafe(a, f1);
      NoBareConditionIsSafe(b, MiddleCond(Top(f1), Compile(a, f1)));
  }

  // ---------- emitting the instruction that computes the target ----------

  /** Only an operand of the instruction can lose its value, and only if it is a temporary. */
  lemma LostIsOperand(fs: FState, i: Instr)
    requires !IsJump(i.op)
    ensures forall r :: r in Lost(fs, i) ==> r !in Writes(i) && (i.op == OP_MOVE ==> r == i.arg1)
    ensures forall r :: r in Lost(fs, i) && i.op != OP_MOVE ==> !IsLocal(fs.vlocals, r) && (r == i.arg1 || r == i.arg2)
  {
  }

  lemma EmitEndsInCmp(fs: FState, i: Instr)
    ensures EndsInCmp(Emit(fs, i)) ==> i.op == OP_CMP && Previous(Emit(fs, i)) == Some(i)
  {
  }

  /** Emitting i into target t, when o holds its operands and v is what i computes from them. */
  lemma {:induction false} EmitLeaves(step: Stepper<Machine>, ops: Ops, lits: seq<SQObject>, fs: FState, i: Instr,
                                      pc0: nat, m: Machine, v: Option<SQObject>, n: int)
    requires Interprets(step, ops, lits) && Open(fs, pc0, |m.regs|) && Disciplined(fs.vlocals, i, |m.regs|)
    requires n <= i.arg0 && Writes(i) == {i.arg0} && (forall r :: r in Lost(fs, i) ==> n <= r)
    requires forall m1 :: Run(step, fs.code, pc0, m) == Some(m1) ==> Step(ops, lits, i, m1) == PutResult(m1, i.arg0, v)
    ensures Leaves(Run(step, fs.code, pc0, m), v, Run(step, Emit(fs, i).code, pc0, m), n, i.arg0)
    ensures Open(Emit(fs, i), pc0, |m.regs|) && Emit(fs, i).code[..pc0] == fs.code[..pc0]
  {
    EmitKeepsSegment(fs, i, pc0, |m.regs|);
    EmitRuns(step, ops, lits, fs, i, pc0, m);
    RunKeepsSize(step, ops, lits, fs.code, pc0, m);
    LostIsOperand(fs, i);
    var o := Run(step, fs.code, pc0, m);
    if o.Some? {
      assert Step(ops, lits, i, o.value) == PutResult(o.value, i.arg0, v);
    }
  }

  lemma LoadLosesNothing(fs: FState, i: Instr)
    requires (i.op == OP_LOAD || i.op == OP_LOADINT || i.op == OP_LOADFLOAT || i.op == OP_LOADBOOL ||
              i.op == OP_LOADNULLS) || IsUnary(i.op) || IsBinary(i.op)
    ensures Lost(fs, i) == {}
  {
  }

  lemma LeavesChain(o0: Option<Machine>, o1: Option<Machine>, o2: Option<Machine>,
                       v: Option<SQObject>, w: Option<SQObject>, n: int, n1: int, s: int, t: int)
    requires Leaves(o0, v, o1, n, s) && Leaves(o1, w, o2, n1, t) && n <= n1
    ensures Leaves(o0, if o0.Some? && v.Some? then w else None, o2, n, t)
    ensures o2.Some? && 0 <= s < n1 && s < |o2.value.regs| ==> v.Some? && Reg(o2.value, s) == v.value
  {
  }

  // ---------- the main theorem, case by case ----------

  /** What the code grows into fits the frame and the literals of the finished function. */
  ghost predicate Fits(r: FState, lits: seq<SQObject>, registers: int) {
    !r.failed && r.stacksize <= registers && r.lits <= lits
  }

  ghost predicate Ready(e: Expr, fs: FState, lits: seq<SQObject>, registers: int) {
    WellFormed(e, fs.vlocals) && Allocated(fs) && Fits(Compile(e, fs), lits, registers) && NoStrayJump(e, fs)
  }

  /** The code of fs' runs the code of fs and then leaves the value of e in the target on top. */
  ghost predicate Computes(step: Stepper<Machine>, ops: Ops, e: Expr, fs: FState, fs': FState, pc0: nat, m: Machine) {
    && Open(fs', pc0, |m.regs|) && pc0 <= |fs.code| && fs'.code[..pc0] == fs.code[..pc0]
    && fs'.targets != [] && (!e.Local? ==> CmpIsTop(fs'))
    && var o := Run(step, fs.code, pc0, m);
       Leaves(o, EvalFrom(ops, o, e), Run(step, fs'.code, pc0, m), |fs.vlocals|, Top(fs'))
  }

  lemma {:induction false} LiteralFound(lits: seq<SQObject>, c: SQObject)
    requires c in lits
    ensures LiteralIndex(lits, c) < |lits|
  {
    if lits[0] != c { LiteralFound(lits[1..], c); }
  }

  lemma LoadStep(ops: Ops, lits: seq<SQObject>, known: seq<SQObject>, t: int, c: SQObject, m: Machine)
    requires known <= lits && (NeedsLiteral(c) ==> c in known) && 0 <= t < 256
    ensures Step(ops, lits, LoadOf(known, t, c), m) == PutResult(m, t, Some(c))
  {
    if NeedsLiteral(c) {
      LiteralFound(known, c);
      assert LoadOf(known, t, c) == Instr(OP_LOAD, t, LiteralIndex(known, c), 0, 0);
    } else if c == Null {
      assert PutNulls(m, t, 1).regs == Put(m, t, Null).regs;
    }
  }

  lemma LoadIsDisciplined(vlocals: seq<bool>, known: seq<SQObject>, t: int, c: SQObject, registers: int)
    requires 0 <= t < registers && t < 256
    ensures var i := LoadOf(known, t, c);
            && Disciplined(vlocals, i, registers) && Writes(i) == {t} && i.arg0 == t
            && (i.op == OP_LOAD || i.op == OP_LOADINT || i.op == OP_LOADFLOAT || i.op == OP_LOADBOOL ||
                i.op == OP_LOADNULLS)
  {
  }

  function WithConstant(c: SQObject, fs: FState): FState {
    PushTarget(if NeedsLiteral(c) then AddConstant(fs, c) else fs)
  }

  lemma ConstReady(c: SQObject, fs: FState, pc0: nat, lits: seq<SQObject>, registers: int)
    requires Ready(Const(c), fs, lits, registers) && Open(fs, pc0, registers)
    ensures var p := WithConstant(c, fs);
            && p.code == fs.code && p.targets != [] && Top(p) == |fs.vlocals| < registers && |fs.vlocals| < 256
            && Open(p, pc0, registers) && p.lits <= lits && (NeedsLiteral(c) ==> c in p.lits)
  {
    PushTargetPushes(if NeedsLiteral(c) then AddConstant(fs, c) else fs);
  }

  lemma ConstRuns(step: Stepper<Machine>, ops: Ops, lits: seq<SQObject>, c: SQObject, fs: FState, pc0: nat, m: Machine)
    requires Interprets(step, ops, lits) && Ready(Const(c), fs, lits, |m.regs|) && Open(fs, pc0, |m.regs|)
    ensures Computes(step, ops, Const(c), fs, CompileConst(c, fs), pc0, m)
  {
    var p := WithConstant(c, fs);
    var i := LoadOf(p.lits, |fs.vlocals|, c);
    ConstReady(c, fs, pc0, lits, |m.regs|);
    LoadIsDisciplined(p.vlocals, p.lits, |fs.vlocals|, c, |m.regs|);
    LoadLosesNothing(p, i);
    EmitEndsInCmp(p, i);
    forall m1 ensures Step(ops, lits, i, m1) == PutResult(m1, i.arg0, Some(c)) {
      LoadStep(ops, lits, p.lits, |fs.vlocals|, c, m1);
    }
    EmitLeaves(step, ops, lits, p, i, pc0, m, Some(c), |fs.vlocals|);
  }

  /** r is a named local, or a register that was allocated after the locals and temporaries in vlocals. */
  predicate Operand(vlocals: seq<bool>, r: int) {
    0 <= r < 256 && (IsLocal(vlocals, r) || |vlocals| <= r)
  }

  /** Emits the instruction that combines operands already in their registers. */
  lemma {:induction false} CombineRuns(step: Stepper<Machine>, ops: Ops, lits: seq<SQObject>, e: Expr, fs: FState,
                                       g: FState, i: Instr, pc0: nat, m: Machine, held: Option<SQObject>, t: int,
                                       v: Option<SQObject>)
    requires Interprets(step, ops, lits) && Open(g, pc0, |m.regs|) && Disciplined(g.vlocals, i, |m.regs|)
    requires pc0 <= |fs.code| && g.code[..pc0] == fs.code[..pc0] && g.targets != [] && Top(g) == |fs.vlocals|
    requires fs.vlocals <= g.vlocals && i.arg0 == |fs.vlocals| && Writes(i) == {i.arg0} && i.op != OP_MOVE && !e.Local?
    requires Operand(fs.vlocals, i.arg1) && (Operand(fs.vlocals, i.arg2) || Lost(g, i) == {})
    requires Leaves(Run(step, fs.code, pc0, m), held, Run(step, g.code, pc0, m), |fs.vlocals|, t)
    requires forall m1 :: Run(step, g.code, pc0, m) == Some(m1) ==> Step(ops, lits, i, m1) == PutResult(m1, i.arg0, v)
    requires var o := Run(step, fs.code, pc0, m); EvalFrom(ops, o, e) == if o.Some? && held.Some? then v else None
    ensures Computes(step, ops, e, fs, Emit(g, i), pc0, m)
  {
    hide Run, Step, Emit, Lost, Interprets, PutResult, EvalFrom;
    LostIsOperand(g, i);
    EmitEndsInCmp(g, i);
    EmitLeaves(step, ops, lits, g, i, pc0, m, v, |fs.vlocals|);
    assert Top(Emit(g, i)) == i.arg0 && CmpIsTop(Emit(g, i));
    LeavesChain(Run(step, fs.code, pc0, m), Run(step, g.code, pc0, m), Run(step, Emit(g, i).code, pc0, m),
                held, v, |fs.vlocals|, |fs.vlocals|, t, i.arg0);
  }

  lemma UnaryStep(ops: Ops, lits: seq<SQObject>, op: Opcode, t: int, src: int, m: Machine)
    requires IsUnary(op)
    ensures Step(ops, lits, Instr(op, t, src, 0, 0), m) == PutResult(m, t, ops.unary(op, Reg(m, src)))
  {
  }

  /** Popping operands and pushing a target leaves the code open, and room for the target. */
  lemma TargetReady(fs: FState, f: FState, g: FState, pc0: nat, registers: int)
    requires Open(f, pc0, registers) && g.code == f.code && g.opt == f.opt && Pushed(fs, g, false) &&
             g.stacksize <= registers
    ensures Open(g, pc0, registers) && Top(g) == |fs.vlocals| < registers && |fs.vlocals| < 256
  {
    PopPushed(fs, g, false);
  }

  lemma UnaryEmits(op: Opcode, fs: FState, f1: FState, g: FState, bare: bool)
    requires Pushed(fs, f1, bare) && g == PushTarget(PopTarget(f1)) && Pushed(fs, g, false)
    ensures EmitUnary(op, f1) == Emit(g, Instr(op, |fs.vlocals|, Top(f1), 0, 0)) && g.code == f1.code && g.opt == f1.opt
    ensures Operand(fs.vlocals, Top(f1))
  {
    PopPushed(fs, f1, bare);
    PopPushed(fs, g, false);
    MakeExact(op, |fs.vlocals|, Top(f1), 0, 0);
  }

  lemma UnaryRuns(step: Stepper<Machine>, ops: Ops, lits: seq<SQObject>, op: Opcode, a: Expr, fs: FState,
                  f1: FState, g: FState, pc0: nat, m: Machine)
    requires Interprets(step, ops, lits) && IsUnary(op)
    requires Computes(step, ops, a, fs, f1, pc0, m) && Pushed(fs, f1, a.Local?)
    requires g == PushTarget(PopTarget(f1)) && Pushed(fs, g, false) && g.stacksize <= |m.regs|
    ensures Computes(step, ops, Unary(op, a), fs, EmitUnary(op, f1), pc0, m)
  {
    hide Interprets, Run, Step, Open, Emit, Lost, PutResult, EmitUnary;
    var src, n := Top(f1), |fs.vlocals|;
    var i := Instr(op, n, src, 0, 0);
    UnaryEmits(op, fs, f1, g, a.Local?);
    TargetReady(fs, f1, g, pc0, |m.regs|);
    LoadLosesNothing(g, i);
    var o := Run(step, fs.code, pc0, m);
    var x := EvalFrom(ops, o, a);
    var v := if x.Some? then ops.unary(op, x.value) else None;
    forall m1 | Run(step, g.code, pc0, m) == Some(m1) ensures Step(ops, lits, i, m1) == PutResult(m1, n, v) {
      UnaryStep(ops, lits, op, n, src, m1);
    }
    CombineRuns(step, ops, lits, Unary(op, a), fs, g, i, pc0, m, x, src, v);
  }

  lemma MakeExact(op: Opcode, arg0: int, arg1: int, arg2: int, arg3: int)
    requires 0 <= arg0 < 256 && 0 <= arg2 < 256 && 0 <= arg3 < 256
    ensures Make(op, arg0, arg1, arg2, arg3) == Instr(op, arg0, arg1, arg2, arg3)
  {
  }

  // ---------- two operands ----------

  lemma OperandsAre(fs: FState, f1: FState, f2: FState, bare1: bool, bare2: bool)
    requires Pushed(fs, f1, bare1) && Pushed(f1, f2, bare2)
    ensures Operand(fs.vlocals, Top(f1)) && Operand(fs.vlocals, Top(f2)) && Top(PopTarget(f2)) == Top(f1)
    ensures Top(f1) != Top(f2) || IsLocal(fs.vlocals, Top(f1))
  {
    PopPushed(fs, f1, bare1);
    PopPushed(f1, f2, bare2);
    BinaryPushes(fs, f1, f2, bare1, bare2);
  }

  lemma BinaryEmits(op: Opcode, op3: int, fs: FState, f1: FState, f2: FState, g: FState, bare1: bool, bare2: bool)
    requires 0 <= op3 < 256 && Pushed(fs, f1, bare1) && Pushed(f1, f2, bare2)
    requires g == PushTarget(PopTarget(PopTarget(f2))) && Pushed(fs, g, false)
    ensures EmitBinary(op, op3, f2) == Emit(g, Instr(op, |fs.vlocals|, Top(f2), Top(f1), op3))
    ensures EmitGet(f2) == Emit(g, Instr(OP_GET, |fs.vlocals|, Top(f1), Top(f2), 0))
    ensures g.code == f2.code && g.opt == f2.opt
  {
    PopPushed(fs, g, false);
    OperandsAre(fs, f1, f2, bare1, bare2);
    MakeExact(op, |fs.vlocals|, Top(f2), Top(f1), op3);
    MakeExact(OP_GET, |fs.vlocals|, Top(f1), Top(f2), 0);
  }

  /** What the machine holds once both operands are computed. */
  lemma BothHeld(o: Option<Machine>, o1: Option<Machine>, o2: Option<Machine>, x: Option<SQObject>, y: Option<SQObject>,
                 n: int, n1: int, s: int, t: int)
    requires Leaves(o, x, o1, n, s) && Leaves(o1, y, o2, n1, t) && n <= n1 && 0 <= s < n1
    requires o2.Some? ==> s < |o2.value.regs|
    ensures Leaves(o, if o.Some? && x.Some? then y else None, o2, n, t)
    ensures o2.Some? ==>
            o.Some? && x.Some? && y.Some? && Reg(o2.value, s) == x.value && Reg(o2.value, t) == y.value &&
            o2.value.heap == o.value.heap
  {
  }

  lemma {:induction false} TwoOperandsRun(step: Stepper<Machine>, ops: Ops, lits: seq<SQObject>, e: Expr, a: Expr,
                                          b: Expr, fs: FState, f1: FState, f2: FState, g: FState, i: Instr, pc0: nat,
                                          m: Machine, v: Option<SQObject>)
    requires Interprets(step, ops, lits) && WellFormed(b, fs.vlocals) && !e.Local?
    requires Computes(step, ops, a, fs, f1, pc0, m) && Pushed(fs, f1, a.Local?)
    requires Computes(step, ops, b, f1, f2, pc0, m) && Pushed(f1, f2, b.Local?)
    requires g.code == f2.code && g.opt == f2.opt && Pushed(fs, g, false) && g.stacksize <= |m.regs|
    requires Disciplined(g.vlocals, i, |m.regs|) && i.arg0 == |fs.vlocals| && IsValue(i.op) && i.op != OP_MOVE
    requires Operand(fs.vlocals, i.arg1) && Operand(fs.vlocals, i.arg2)
    requires var o := Run(step, fs.code, pc0, m); var x, y := EvalFrom(ops, o, a), EvalFrom(ops, o, b);
             && EvalFrom(ops, o, e) == (if o.Some? && x.Some? && y.Some? then v else None)
             && forall m2: Machine ::
                  (o.Some? && x.Some? && y.Some? && m2.heap == o.value.heap && Reg(m2, Top(f1)) == x.value &&
                   Reg(m2, Top(f2)) == y.value)
                  ==> ComputedValue(ops, lits, i, m2) == v
    ensures Computes(step, ops, e, fs, Emit(g, i), pc0, m)
  {
    hide Run, Interprets, Emit, Open, Eval;
    var o, o1, o2 := Run(step, fs.code, pc0, m), Run(step, f1.code, pc0, m), Run(step, f2.code, pc0, m);
    var x, y := EvalFrom(ops, o, a), EvalFrom(ops, o, b);
    TargetReady(fs, f2, g, pc0, |m.regs|);
    PopPushed(fs, f1, a.Local?);
    RunKeepsSize(step, ops, lits, f2.code, pc0, m);
    if o1.Some? { EvalFrame(ops, o.value, o1.value, b, fs.vlocals, |fs.vlocals|); }
    BothHeld(o, o1, o2, x, EvalFrom(ops, o1, b), |fs.vlocals|, |f1.vlocals|, Top(f1), Top(f2));
    CombineRuns(step, ops, lits, e, fs, g, i, pc0, m, if o.Some? && x.Some? then y else None, Top(f2), v);
  }

  // ---------- moving a value to its target ----------

  /** The previous instruction is none that MOVE could be fused with. */
  predicate NothingToFuse(fs: FState) {
    Previous(fs).None? || IsJump(Previous(fs).value.op)
  }

  lemma JumpIsNotFused(fs: FState, i: Instr)
    requires NothingToFuse(fs)
    ensures FusedWith(fs, i) == None && Lost(fs, i) == {}
  {
  }

  lemma {:induction false} MoveRuns(step: Stepper<Machine>, ops: Ops, lits: seq<SQObject>, f2: FState, trg: int,
                                    o: Option<Machine>, v: Option<SQObject>, n1: int, pc: nat, m: Machine)
    requires Interprets(step, ops, lits) && Open(f2, pc, |m.regs|) && f2.targets != []
    requires 0 <= trg < n1 && trg < 256 && trg < |m.regs| && 0 <= Top(f2) < 256 && Top(f2) != trg
    requires Leaves(o, v, Run(step, f2.code, pc, m), n1, Top(f2))
    requires trg < Top(f2) || NothingToFuse(f2)
    ensures Leaves(o, v, Run(step, MoveTo(f2, trg).code, pc, m), trg, trg)
    ensures Open(MoveTo(f2, trg), pc, |m.regs|) && MoveTo(f2, trg).code[..pc] == f2.code[..pc]
  {
    var src, g := Top(f2), PopTarget(f2);
    var i := Instr(OP_MOVE, trg, src, 0, 0);
    MakeExact(OP_MOVE, trg, src, 0, 0);
    LostIsOperand(g, i);
    if !(trg < src) { JumpIsNotFused(g, i); }
    EmitLeaves(step, ops, lits, g, i, pc, m, v, trg);
    LeavesChain(o, Run(step, f2.code, pc, m), Run(step, Emit(g, i).code, pc, m), v, v, trg, trg, src, trg);
  }

  // ---------- && and || ----------

  predicate IsShortCircuit(op: Opcode) {
    op == OP_AND || op == OP_OR
  }

  lemma JumpIsPushed(fs: FState, i: Instr, pc0: nat, registers: int)
    requires IsShortCircuit(i.op) || i.op == OP_JMP
    requires Open(fs, pc0, registers) && i.arg1 == 0 && 0 <= i.arg0 < registers
    ensures Emit(fs, i).code == fs.code + [i] && Open(Emit(fs, i), |fs.code| + 1, registers) &&
            NothingToFuse(Emit(fs, i))
  {
    PushKeepsSegment(fs, i, pc0);
  }

  lemma MoveIsPushed(fs: FState, i: Instr, pc0: nat, registers: int)
    requires NothingToFuse(fs) && Open(fs, pc0, registers)
    requires i.op == OP_MOVE && 0 <= i.arg0 < registers && 0 <= i.arg1 < 256
    ensures Emit(fs, i).code == fs.code + [i] && Open(Emit(fs, i), pc0, registers)
  {
    JumpIsNotFused(fs, i);
    EmitKeepsSegment(fs, i, pc0, registers);
  }

  lemma BeginEmits(op: Opcode, fs: FState, f1: FState, f2: FState, bare: bool, pc0: nat, registers: int)
    requires IsShortCircuit(op) && Pushed(fs, f1, bare) && f2 == BeginShortCircuit(op, f1) && Pushed(fs, f2, false)
    requires Open(f1, pc0, registers) && f2.stacksize <= registers
    ensures var n, first := |fs.vlocals|, Top(f1);
            && f2.code == f1.code + [Instr(op, n, 0, first, 0)] +
               (if n == first then [] else [Instr(OP_MOVE, n, first, 0, 0)])
            && Open(f2, |f1.code| + 1, registers)
  {
    hide Emit, Open;
    var n, first := |fs.vlocals|, Top(f1);
    var g, j, v := PushTarget(PopTarget(f1)), Instr(op, n, 0, first, 0), Instr(OP_MOVE, n, first, 0, 0);
    PopPushed(fs, f1, bare);
    PopPushed(fs, f2, false);
    MakeExact(op, n, 0, first, 0);
    MakeExact(OP_MOVE, n, first, 0, 0);
    TargetReady(fs, f1, g, pc0, registers);
    JumpIsPushed(g, j, pc0, registers);
    if n != first { MoveIsPushed(Emit(g, j), v, |f1.code| + 1, registers); }
  }

  /** The code between the jump and the second operand leaves the registers below the target alone. */
  lemma {:induction false} BeginRuns(step: Stepper<Machine>, ops: Ops, lits: seq<SQObject>, code: seq<Instr>, pc: nat,
                                     n: int, first: int, m: Machine)
    requires Interprets(step, ops, lits) && pc <= |code|
    requires code[pc..] == if n == first then [] else [Instr(OP_MOVE, n, first, 0, 0)]
    ensures var r := Run(step, code, pc, m); r.Some? && AgreeBelow(m, r.value, n)
  {
    if n != first {
      assert code[pc] == code[pc..][0];
      RunLast(step, code, pc, m);
      AfterSteps(step, ops, lits, code[pc], Some(m));
    }
  }

  /** Patching the jump at jpos keeps the code well formed: p is what was there before the jump. */
  lemma PatchKeepsOpen(fs: FState, p: FState, jpos: nat, offset: nat, pc0: nat, registers: int)
    requires Open(p, pc0, registers) && |p.code| == jpos < |fs.code| && fs.code[..jpos] == p.code
    requires Open(fs, jpos + 1, registers) && IsJump(fs.code[jpos].op) && jpos + 1 + offset <= |fs.code| && !fs.opt
    ensures var r := SetArg1(fs, jpos, offset);
            && Open(r, pc0, registers) && r.code[..pc0] == p.code[..pc0] && !r.opt
            && r.code[..jpos] == p.code && r.code[jpos] == fs.code[jpos].(arg1 := offset)
            && |r.code| == |fs.code| && (forall k :: jpos < k < |fs.code| ==> r.code[k] == fs.code[k])
  {
    var r := SetArg1(fs, jpos, offset);
    assert forall k :: 0 <= k < jpos ==> r.code[k] == p.code[k];
  }

  /** The operator takes the first operand's value as its own. */
  predicate Stops(ops: Ops, op: Opcode, v: SQObject) {
    (op == OP_AND) == ops.isFalse(v)
  }

  lemma ShortCircuitJump(step: Stepper<Machine>, ops: Ops, lits: seq<SQObject>, c: seq<Instr>, code: seq<Instr>,
                         op: Opcode, n: int, first: int, pc0: nat, m: Machine)
    requires Interprets(step, ops, lits) && IsShortCircuit(op)
    requires pc0 <= |c| < |code| && JumpsWithin(c, pc0, |c|) && code[..|c|] == c
    requires code[|c|] == Instr(op, n, |code| - 1 - |c|, first, 0)
    ensures Run(step, code, pc0, m) ==
            match Run(step, c, pc0, m)
            case None => None
            case Some(m1) =>
              if Stops(ops, op, Reg(m1, first)) then Some(Put(m1, n, Reg(m1, first))) else Run(step, code, |c| + 1, m1)
  {
    assert code == c + code[|c|..];
    RunPrefix(step, c, code[|c|..], pc0, m);
    match Run(step, c, pc0, m)
    case None =>
    case Some(m1) =>
      var v := Reg(m1, first);
      assert Exec(ops, lits, code[|c|], m1) == Some(if Stops(ops, op, v) then (Put(m1, n, v), |code| - 1 - |c|)
                                                    else (m1, 0));
      RunAtEnd(step, code, Put(m1, n, v));
  }

  lemma {:induction false} RunAtEnd(step: Stepper<Machine>, code: seq<Instr>, m: Machine)
    ensures Run(step, code, |code|, m) == Some(m)
  {
  }

  lemma {:induction false} ShortCircuitLeaves(step: Stepper<Machine>, ops: Ops, lits: seq<SQObject>, op: Opcode,
                                              c: seq<Instr>, code: seq<Instr>, n: int, first: int, pc0: nat, m: Machine,
                                              o: Option<Machine>, x: Option<SQObject>, y: Option<SQObject>)
    requires Interprets(step, ops, lits) && IsShortCircuit(op) && 0 <= n < |m.regs|
    requires pc0 <= |c| < |code| && JumpsWithin(c, pc0, |c|) && code[..|c|] == c
    requires code[|c|] == Instr(op, n, |code| - 1 - |c|, first, 0)
    requires Leaves(o, x, Run(step, c, pc0, m), n, first)
    requires Run(step, c, pc0, m).Some? ==>
               var m1 := Run(step, c, pc0, m).value; Leaves(Some(m1), y, Run(step, code, |c| + 1, m1), n, n)
    ensures Leaves(o, if x.Some? && Stops(ops, op, x.value) then x else if x.Some? then y else None,
                   Run(step, code, pc0, m), n, n)
  {
    ShortCircuitJump(step, ops, lits, c, code, op, n, first, pc0, m);
    RunKeepsSize(step, ops, lits, c, pc0, m);
  }

  function ShortCircuit(op: Opcode, a: Expr, b: Expr): Expr {
    if op == OP_AND then And(a, b) else Or(a, b)
  }

  lemma {:induction false} SecondOperandRuns(step: Stepper<Machine>, ops: Ops, lits: seq<SQObject>, f2: FState,
                                             f3: FState, code: seq<Instr>, pc: nat, n: int, o2: Option<Machine>,
                                             y: Option<SQObject>, m1: Machine)
    requires Interprets(step, ops, lits) && 0 <= n < 256 && n < |m1.regs| && f3.targets != [] && 0 <= Top(f3) < 256 &&
             Top(f3) != n
    requires pc <= |f2.code| && Open(f3, pc, |m1.regs|) && f3.code[..pc] == f2.code[..pc]
    requires o2.Some? && AgreeBelow(m1, o2.value, n) && Leaves(o2, y, Run(step, f3.code, pc, m1), n + 1, Top(f3))
    requires var f4 := MoveTo(Snooze(f3), n); |code| == |f4.code| && forall k :: pc <= k < |code| ==>
             code[k] == f4.code[k]
    ensures Leaves(Some(m1), y, Run(step, code, pc, m1), n, n)
    ensures Open(MoveTo(Snooze(f3), n), pc, |m1.regs|) && MoveTo(Snooze(f3), n).code[..pc] == f2.code[..pc]
  {
    MoveRuns(step, ops, lits, Snooze(f3), n, o2, y, n + 1, pc, m1);
    RunSuffix(step, MoveTo(Snooze(f3), n).code, code, pc, m1);
  }

  lemma SamePrefix(c: seq<Instr>, d: seq<Instr>, p: seq<Instr>, i: Instr)
    requires |c| > |p| && |d| > |p| && c[..|p| + 1] == d[..|p| + 1] && d[..|p| + 1] == p + [i]
    ensures c[..|p|] == p && c[|p|] == i
  {
    assert c[..|p|] == c[..|p| + 1][..|p|];
    assert c[|p|] == c[..|p| + 1][|p|];
  }

  /** The patched code of a short circuit: what it starts with, and that it is well formed. */
  ghost predicate Patched(op: Opcode, fs: FState, f1: FState, r: FState, pc0: nat, registers: int)
    requires f1.targets != []
  {
    && pc0 <= |f1.code| && Open(r, pc0, registers) && r.code[..pc0] == f1.code[..pc0] && !r.opt
    && r.targets != [] && Top(r) == |fs.vlocals| < registers
    && |r.code| > |f1.code| && r.code[..|f1.code|] == f1.code
    && r.code[|f1.code|] == Instr(op, |fs.vlocals|, |r.code| - 1 - |f1.code|, Top(f1), 0)
  }

  lemma ShortCircuitPatched(op: Opcode, fs: FState, f1: FState, f2: FState, f4: FState, r: FState, pc0: nat,
                            registers: int)
    requires IsShortCircuit(op) && Open(f1, pc0, registers) && f1.targets != []
    requires |f2.code| > |f1.code| && f2.code[..|f1.code| + 1] == f1.code + [Instr(op, |fs.vlocals|, 0, Top(f1), 0)]
    requires Open(f4, |f1.code| + 1, registers) && f4.code[..|f1.code| + 1] == f2.code[..|f1.code| + 1]
    requires r == SetArg1(Snooze(f4), |f1.code|, |f4.code| - 1 - |f1.code|)
    requires r.targets != [] && Top(r) == |fs.vlocals| < registers
    ensures Patched(op, fs, f1, r, pc0, registers)
  {
    SamePrefix(f4.code, f2.code, f1.code, Instr(op, |fs.vlocals|, 0, Top(f1), 0));
    PatchKeepsOpen(Snooze(f4), f1, |f1.code|, |f4.code| - 1 - |f1.code|, pc0, registers);
  }

  lemma PatchIsLocal(fs: FState, pos: int, val: int)
    ensures var r := SetArg1(fs, pos, val);
            |r.code| == |fs.code| && forall k :: 0 <= k < |fs.code| && k != pos ==> r.code[k] == fs.code[k]
  {
  }

  /** Where the second operand starts, the machine still has the values its locals had at the jump. */
  lemma SecondStarts(step: Stepper<Machine>, ops: Ops, lits: seq<SQObject>, op: Opcode, b: Expr, fs: FState, bare: bool,
                     f1: FState, f2: FState, pc0: nat, m1: Machine)
    requires Interprets(step, ops, lits) && IsShortCircuit(op) && WellFormed(b, fs.vlocals)
    requires Open(f1, pc0, |m1.regs|) && Pushed(fs, f1, bare)
    requires f2 == BeginShortCircuit(op, f1) && Pushed(fs, f2, false) && f2.stacksize <= |m1.regs|
    ensures |f2.code| > |f1.code| && f2.code[..|f1.code| + 1] == f1.code + [Instr(op, |fs.vlocals|, 0, Top(f1), 0)]
    ensures Open(f2, |f1.code| + 1, |m1.regs|)
    ensures var o2 := Run(step, f2.code, |f1.code| + 1, m1);
            o2.Some? && AgreeBelow(m1, o2.value, |fs.vlocals|) && Eval(ops, o2.value, b) == Eval(ops, m1, b)
  {
    var n, first, jpos := |fs.vlocals|, Top(f1), |f1.code|;
    BeginEmits(op, fs, f1, f2, bare, pc0, |m1.regs|);
    assert f2.code[jpos + 1..] == if n == first then [] else [Instr(OP_MOVE, n, first, 0, 0)];
    assert f2.code[..jpos + 1] == f1.code + [Instr(op, n, 0, first, 0)];
    BeginRuns(step, ops, lits, f2.code, jpos + 1, n, first, m1);
    EvalFrame(ops, m1, Run(step, f2.code, jpos + 1, m1).value, b, fs.vlocals, n);
  }

  /** The second operand's code f3 runs from the machine m1 that the jump at jpos passed on. */
  ghost predicate SecondComputed(step: Stepper<Machine>, fs: FState, bare: bool, f2: FState, f3: FState, jpos: nat,
                                 m1: Machine, o2: Option<Machine>, y: Option<SQObject>) {
    && jpos < |f2.code| && Pushed(fs, f2, false) && f2.stacksize <= |m1.regs| && Pushed(f2, f3, bare)
    && Open(f3, jpos + 1, |m1.regs|) && f3.code[..jpos + 1] == f2.code[..jpos + 1]
    && o2.Some? && AgreeBelow(m1, o2.value, |fs.vlocals|)
    && Leaves(o2, y, Run(step, f3.code, jpos + 1, m1), |f2.vlocals|, Top(f3))
  }

  lemma EndIsPatched(jpos: nat, fs: FState, f2: FState, f3: FState, f4: FState, bare: bool)
    requires Pushed(fs, f2, false) && Pushed(f2, f3, bare) && f4 == MoveTo(Snooze(f3), |fs.vlocals|)
    ensures var r := EndShortCircuit(jpos, Top(f2), f3);
            r == SetArg1(Snooze(f4), jpos, |f4.code| - 1 - jpos) && r.targets != [] &&
              Top(r) == |fs.vlocals| < f2.stacksize
  {
    PopPushed(fs, f2, false);
    EndShortCircuitPushes(jpos, fs, f2, f3, bare);
  }

  lemma {:induction false} SecondMoved(step: Stepper<Machine>, ops: Ops, lits: seq<SQObject>, fs: FState, bare: bool,
                                       f2: FState, f3: FState, f4: FState, jpos: nat, n: int, m1: Machine,
                                       o2: Option<Machine>, y: Option<SQObject>)
    requires Interprets(step, ops, lits) && n == |fs.vlocals|
    requires SecondComputed(step, fs, bare, f2, f3, jpos, m1, o2, y) && f4 == MoveTo(Snooze(f3), n)
    ensures Open(f4, jpos + 1, |m1.regs|) && f4.code[..jpos + 1] == f2.code[..jpos + 1]
    ensures Leaves(Some(m1), y, Run(step, SetArg1(Snooze(f4), jpos, |f4.code| - 1 - jpos).code, jpos + 1, m1), n, n)
  {
    PopPushed(fs, f2, false);
    PopPushed(f2, f3, bare);
    PatchIsLocal(Snooze(f4), jpos, |f4.code| - 1 - jpos);
    SecondOperandRuns(step, ops, lits, f2, f3, SetArg1(Snooze(f4), jpos, |f4.code| - 1 - jpos).code, jpos + 1, n, o2, y,
                      m1);
  }

  /**
   * The code r that ends a short circuit is f4, which moves the second operand to the target, with the jump patched.
   */
  lemma SecondPatched(step: Stepper<Machine>, ops: Ops, lits: seq<SQObject>, fs: FState, bare: bool, f2: FState,
                      f3: FState, r: FState, jpos: nat, n: int, m1: Machine, o2: Option<Machine>, y: Option<SQObject>)
    returns (f4: FState)
    requires Interprets(step, ops, lits) && n == |fs.vlocals|
    requires SecondComputed(step, fs, bare, f2, f3, jpos, m1, o2, y) && r == EndShortCircuit(jpos, Top(f2), f3)
    ensures Open(f4, jpos + 1, |m1.regs|) && f4.code[..jpos + 1] == f2.code[..jpos + 1]
    ensures r == SetArg1(Snooze(f4), jpos, |f4.code| - 1 - jpos) && r.targets != [] && Top(r) == n < |m1.regs|
    ensures Leaves(Some(m1), y, Run(step, r.code, jpos + 1, m1), n, n)
  {
    f4 := MoveTo(Snooze(f3), n);
    SecondMoved(step, ops, lits, fs, bare, f2, f3, f4, jpos, n, m1, o2, y);
    EndIsPatched(jpos, fs, f2, f3, f4, bare);
  }

  lemma {:induction false} ShortCircuitBuilt(step: Stepper<Machine>, ops: Ops, lits: seq<SQObject>, op: Opcode,
                                             fs: FState, bare: bool, f1: FState, f2: FState, f3: FState, r: FState,
                                             pc0: nat, m1: Machine, o2: Option<Machine>, y: Option<SQObject>)
    requires Interprets(step, ops, lits) && IsShortCircuit(op) && Open(f1, pc0, |m1.regs|) && f1.targets != []
    requires SecondComputed(step, fs, bare, f2, f3, |f1.code|, m1, o2, y) &&
             r == EndShortCircuit(|f1.code|, Top(f2), f3)
    requires f2.code[..|f1.code| + 1] == f1.code + [Instr(op, |fs.vlocals|, 0, Top(f1), 0)]
    ensures Patched(op, fs, f1, r, pc0, |m1.regs|)
    ensures Leaves(Some(m1), y, Run(step, r.code, |f1.code| + 1, m1), |fs.vlocals|, |fs.vlocals|)
  {
    var f4 := SecondPatched(step, ops, lits, fs, bare, f2, f3, r, |f1.code|, |fs.vlocals|, m1, o2, y);
    ShortCircuitPatched(op, fs, f1, f2, f4, r, pc0, |m1.regs|);
  }

  lemma {:induction false} ShortCircuitRuns(step: Stepper<Machine>, ops: Ops, lits: seq<SQObject>, op: Opcode, a: Expr,
                                            b: Expr, fs: FState, f1: FState, r: FState, pc0: nat, m: Machine,
                                            m1: Machine)
    requires Interprets(step, ops, lits) && IsShortCircuit(op) && WellFormed(b, fs.vlocals)
    requires Computes(step, ops, a, fs, f1, pc0, m)
    requires Run(step, f1.code, pc0, m).Some? ==> m1 == Run(step, f1.code, pc0, m).value
    requires Leaves(Some(m1), Eval(ops, m1, b), Run(step, r.code, |f1.code| + 1, m1), |fs.vlocals|, |fs.vlocals|)
    requires Patched(op, fs, f1, r, pc0, |m.regs|)
    ensures Computes(step, ops, ShortCircuit(op, a, b), fs, r, pc0, m)
  {
    var o, n := Run(step, fs.code, pc0, m), |fs.vlocals|;
    var x := EvalFrom(ops, o, a);
    if Run(step, f1.code, pc0, m).Some? { EvalFrame(ops, o.value, m1, b, fs.vlocals, n); }
    ShortCircuitLeaves(step, ops, lits, op, f1.code, r.code, n, Top(f1), pc0, m, o, x, EvalFrom(ops, o, b));
    if o.Some? { EvalShortCircuit(ops, o.value, op, a, b); }
  }

  lemma {:induction false} EvalShortCircuit(ops: Ops, m: Machine, op: Opcode, a: Expr, b: Expr)
    requires IsShortCircuit(op)
    ensures var x := Eval(ops, m, a);
            Eval(ops, m, ShortCircuit(op, a, b)) ==
            if x.Some? && Stops(ops, op, x.value) then x else if x.Some? then Eval(ops, m, b) else None
  {
    if op == OP_AND {
      assert ShortCircuit(op, a, b) == And(a, b);
    } else {
      assert ShortCircuit(op, a, b) == Or(a, b);
    }
  }

  // ---------- ?: ----------

  /** JZ on register r, or the comparison of r it is fused with, at the end of p's code. */
  lemma JumpIsSettled(p: FState, r: int, pc0: nat, registers: int)
    requires Open(p, pc0, registers) && 0 <= r < 256 && r < registers
    ensures var f := Emit(p, Make(OP_JZ, r, 0, 0, 0)); var jz := |f.code| - 1;
            && pc0 <= jz <= |p.code| && f.code[..jz] == p.code[..jz] && JumpsWithin(p.code[..jz], pc0, jz)
            && IsJump(f.code[jz].op) && f.code[jz].arg1 == 0 && Open(f, jz + 1, registers) && NothingToFuse(f)
            && (if EndsInCmp(p) then
                  jz == |p.code| - 1 &&
                  f.code[jz] == Instr(OP_JCMP, U8(p.code[jz].arg1), 0, p.code[jz].arg2, p.code[jz].arg3)
                else jz == |p.code| && f.code[jz] == Instr(OP_JZ, r, 0, 0, 0))
  {
    hide Emit, Fuse, Segment;
    MakeExact(OP_JZ, r, 0, 0, 0);
    ZeroJumpIsEmitted(p, r);
    if EndsInCmp(p) {
      CompareIsInside(p, pc0);
    } else {
      InsideItself(p, pc0);
    }
    JumpOpens(p, Emit(p, Instr(OP_JZ, r, 0, 0, 0)), pc0, registers);
  }

  lemma ZeroJumpIsEmitted(p: FState, r: int)
    requires 0 <= r < 256
    ensures var f := Emit(p, Instr(OP_JZ, r, 0, 0, 0)); var last := |p.code| - 1;
            && f.stacksize == p.stacksize && NothingToFuse(f)
            && f.code ==
               if EndsInCmp(p) then
                 p.code[..last] + [Instr(OP_JCMP, U8(p.code[last].arg1), 0, p.code[last].arg2, p.code[last].arg3)]
               else p.code + [Instr(OP_JZ, r, 0, 0, 0)]
  {
  }

  lemma CompareIsInside(p: FState, pc0: nat)
    requires Segment(p, pc0) && EndsInCmp(p)
    ensures pc0 < |p.code| && JumpsWithin(p.code[..|p.code| - 1], pc0, |p.code| - 1) && p.code[|p.code| - 1].arg1 >= 0
  {
  }

  lemma InsideItself(p: FState, pc0: nat)
    requires Segment(p, pc0)
    ensures pc0 <= |p.code| && JumpsWithin(p.code, pc0, |p.code|) && p.code[..|p.code|] == p.code
  {
  }

  /** The code after a jump, which nothing jumps over yet, can be looked at alone. */
  lemma JumpOpens(p: FState, f: FState, pc0: nat, registers: int)
    requires Open(p, pc0, registers) && |f.code| > 0 && f.stacksize == p.stacksize
    requires var jz := |f.code| - 1;
             && jz <= |p.code| && f.code[..jz] == p.code[..jz] && IsJump(f.code[jz].op) && 0 <= f.code[jz].arg0 &&
                f.code[jz].arg1 == 0
    ensures Open(f, |f.code|, registers)
  {
    var jz := |f.code| - 1;
    assert forall k :: 0 <= k < jz ==> f.code[k] == f.code[..jz][k] == p.code[k];
  }

  /** The machine that reaches the end of c. */
  function AtJump(step: Stepper<Machine>, c: seq<Instr>, pc0: nat, m: Machine): Machine {
    match Run(step, c, pc0, m)
    case None => m
    case Some(m1) => m1
  }

  /** Code whose jumps stay before jz gets to the jump there, if it does not fail. */
  lemma {:induction false} ReachesJump(step: Stepper<Machine>, ops: Ops, lits: seq<SQObject>, code: seq<Instr>, jz: nat,
                                       pc0: nat, m: Machine, ms: Machine)
    requires Interprets(step, ops, lits) && pc0 <= jz < |code| && JumpsWithin(code[..jz], pc0, jz)
    requires ms == AtJump(step, code[..jz], pc0, m)
    ensures |ms.regs| == |m.regs|
    ensures Run(step, code, pc0, m) == if Run(step, code[..jz], pc0, m).None? then None else Run(step, code, jz, ms)
  {
    var c := code[..jz];
    assert code == c + code[jz..];
    RunPrefix(step, c, code[jz..], pc0, m);
    RunKeepsSize(step, ops, lits, c, pc0, m);
  }

  lemma ZeroJumpRuns(step: Stepper<Machine>, ops: Ops, lits: seq<SQObject>, code: seq<Instr>, jz: nat, r: int, off: nat,
                     ms: Machine)
    requires Interprets(step, ops, lits) && jz < |code| && code[jz] == Instr(OP_JZ, r, off, 0, 0)
    ensures Run(step, code, jz, ms) == Run(step, code, jz + 1 + (if ops.isFalse(Reg(ms, r)) then off else 0), ms)
  {
    var _ := Exec(ops, lits, code[jz], ms);
  }

  lemma CompareJumpRuns(step: Stepper<Machine>, ops: Ops, lits: seq<SQObject>, code: seq<Instr>, jz: nat, cmp: Instr,
                        off: nat, ms: Machine)
    requires Interprets(step, ops, lits) && jz < |code| && code[jz] == Instr(OP_JCMP, cmp.arg1, off, cmp.arg2, cmp.arg3)
    ensures Run(step, code, jz, ms) ==
            match ops.binary(OP_CMP, cmp.arg3, ms.heap, Reg(ms, cmp.arg2), Reg(ms, cmp.arg1))
            case None => None
            case Some(v) => Run(step, code, jz + 1 + (if ops.isFalse(v) then off else 0), ms)
  {
    var _ := Exec(ops, lits, code[jz], ms);
  }

  /**
   * The machine ms reaches the jump. It need not hold the value of the condition in r, which may have been fused
   * away.
   */
  lemma {:induction false} JumpRuns(step: Stepper<Machine>, ops: Ops, lits: seq<SQObject>, p: FState, r: int, jz: nat,
                                    off: nat, code: seq<Instr>, pc0: nat, m: Machine, n: int, ms: Machine)
    requires Interprets(step, ops, lits) && Open(p, pc0, |m.regs|) && 0 <= r < 256 && r < |m.regs|
    requires EndsInCmp(p) ==> Previous(p).value.arg0 == r && n <= r
    requires var f := Emit(p, Make(OP_JZ, r, 0, 0, 0));
             && jz == |f.code| - 1 < |code| && code[..jz] == f.code[..jz] && code[jz] == f.code[jz].(arg1 := off)
             && ms == AtJump(step, f.code[..jz], pc0, m)
    ensures var o := Run(step, p.code, pc0, m);
            && (o.None? ==> Run(step, code, pc0, m).None?)
            && (o.Some? ==> AgreeBelow(o.value, ms, n) &&
                            Run(step, code, pc0, m) ==
                            Run(step, code, jz + 1 + (if ops.isFalse(Reg(o.value, r)) then off else 0), ms))
  {
    hide Emit, Make, Run, Exec, Interprets, Step;
    JumpIsSettled(p, r, pc0, |m.regs|);
    ReachesJump(step, ops, lits, code, jz, pc0, m, ms);
    if EndsInCmp(p) {
      CompareBeforeJump(step, ops, lits, p.code, pc0, m);
      CompareJumpRuns(step, ops, lits, code, jz, p.code[jz], off, ms);
    } else {
      assert code[..jz] == p.code;
      ZeroJumpRuns(step, ops, lits, code, jz, r, off, ms);
    }
  }

  lemma {:induction false} CompareBeforeJump(step: Stepper<Machine>, ops: Ops, lits: seq<SQObject>, code: seq<Instr>,
                                             pc0: nat, m: Machine)
    requires Interprets(step, ops, lits) && pc0 < |code|
    requires var last := |code| - 1; JumpsWithin(code[..last], pc0, last) && code[last].op == OP_CMP
    ensures var last := |code| - 1; var i := code[last];
            Run(step, code, pc0, m) ==
            match Run(step, code[..last], pc0, m)
            case None => None
            case Some(m1) => PutResult(m1, i.arg0, ops.binary(OP_CMP, i.arg3, m1.heap, Reg(m1, i.arg2),
                                                              Reg(m1, i.arg1)))
  {
    var last := |code| - 1;
    assert code == code[..last] + [code[last]];
    RunSnoc(step, code[..last], code[last], pc0, m);
    AfterSteps(step, ops, lits, code[last], Run(step, code[..last], pc0, m));
  }

  // ---------- the branches of ?: ----------

  /**
   * The code of both branches: f1 starts the first, g1 ends it, f3 starts the second, g3 ends it. Register n is the
   * target. jz and jmp are where the jumps over the first and the second branch are.
   */
  ghost predicate Branches(f1: FState, g1: FState, f3: FState, g3: FState, jz: nat, jmp: nat, registers: int) {
    && |f1.code| == jz + 1 && |g1.code| == jmp && |f3.code| == jmp + 1 && jz < jmp
    && Open(f1, jz + 1, registers) && Open(g1, jz + 1, registers) && g1.code[..jz + 1] == f1.code
    && f3.code == g1.code + [Instr(OP_JMP, 0, 0, 0, 0)]
    && Open(g3, jmp + 1, registers) && g3.code[..jmp + 1] == f3.code
    && IsJump(f1.code[jz].op)
  }

  function PatchedCond(g3: FState, jz: nat, jmp: nat): FState {
    Snooze(SetArg1(SetArg1(g3, jmp, |g3.code| - 1 - jmp), jz, jmp - jz))
  }

  lemma CondCode(f1: FState, g1: FState, f3: FState, g3: FState, jz: nat, jmp: nat, registers: int)
    requires Branches(f1, g1, f3, g3, jz, jmp, registers)
    ensures var r := PatchedCond(g3, jz, jmp);
            && |r.code| == |g3.code| > jmp && r.code[..jz] == f1.code[..jz] &&
               r.code[jz] == f1.code[jz].(arg1 := jmp - jz)
            && (forall k :: jz < k < jmp ==> r.code[k] == g1.code[k])
            && r.code[jmp] == Instr(OP_JMP, 0, |g3.code| - 1 - jmp, 0, 0)
            && (forall k :: jmp < k < |r.code| ==> r.code[k] == g3.code[k])
  {
    var r := PatchedCond(g3, jz, jmp);
    forall k | 0 <= k < jmp ensures g3.code[k] == g1.code[k] {
      assert g3.code[k] == g3.code[..jmp + 1][k];
    }
    assert g3.code[jmp] == g3.code[..jmp + 1][jmp];
    forall k | 0 <= k <= jz ensures g1.code[k] == f1.code[k] {
      assert g1.code[k] == g1.code[..jz + 1][k];
    }
  }

  lemma CondIsOpen(p: FState, f1: FState, g1: FState, f3: FState, g3: FState, pc0: nat, jz: nat, jmp: nat,
                   registers: int)
    requires Branches(f1, g1, f3, g3, jz, jmp, registers)
    requires Open(p, pc0, registers) && pc0 <= jz <= |p.code| && f1.code[..jz] == p.code[..jz] &&
             JumpsWithin(p.code[..jz], pc0, jz)
    ensures var r := PatchedCond(g3, jz, jmp); Open(r, pc0, registers) && r.code[..pc0] == p.code[..pc0] && !r.opt
  {
    CondCode(f1, g1, f3, g3, jz, jmp, registers);
    var r := PatchedCond(g3, jz, jmp);
    forall k | 0 <= k < jz ensures r.code[k] == p.code[k] {
      assert r.code[k] == r.code[..jz][k];
      assert p.code[k] == p.code[..jz][k];
    }
    forall k | pc0 <= k < |r.code| && IsJump(r.code[k].op) ensures 0 <= r.code[k].arg1 &&
      k + 1 + r.code[k].arg1 <= |r.code| {
      if k < jz { assert p.code[..jz][k] == r.code[k]; }
    }
  }

  lemma JumpsToEnd(step: Stepper<Machine>, ops: Ops, lits: seq<SQObject>, code: seq<Instr>, jmp: nat, m: Machine)
    requires Interprets(step, ops, lits) && jmp < |code| && code[jmp] == Instr(OP_JMP, 0, |code| - 1 - jmp, 0, 0)
    ensures Run(step, code, jmp, m) == Some(m)
  {
    assert Exec(ops, lits, code[jmp], m) == Some((m, |code| - 1 - jmp));
    RunAtEnd(step, code, m);
  }

  lemma FirstBranchRuns(step: Stepper<Machine>, ops: Ops, lits: seq<SQObject>, g1: FState, code: seq<Instr>, jz: nat,
                        jmp: nat, m: Machine)
    requires Interprets(step, ops, lits) && jz < jmp == |g1.code| < |code| && JumpsWithin(g1.code, jz + 1, jmp)
    requires forall k :: jz < k < jmp ==> code[k] == g1.code[k]
    requires code[jmp] == Instr(OP_JMP, 0, |code| - 1 - jmp, 0, 0)
    ensures Run(step, code, jz + 1, m) == Run(step, g1.code, jz + 1, m)
  {
    var c := code[..jmp];
    assert code == c + code[jmp..];
    RunPrefix(step, c, code[jmp..], jz + 1, m);
    RunSuffix(step, c, g1.code, jz + 1, m);
    match Run(step, c, jz + 1, m)
    case None =>
    case Some(m1) => JumpsToEnd(step, ops, lits, code, jmp, m1);
  }

  /** One of the branches leaves its value in the target. */
  lemma CondLeaves(step: Stepper<Machine>, ops: Ops, c: Expr, a: Expr, b: Expr, o: Option<Machine>, o0: Option<Machine>,
                   r: int, code: seq<Instr>, pc0: nat, jz: nat, off: nat, m: Machine, ms: Machine, n: int,
                   vlocals: seq<bool>)
    requires WellFormed(a, vlocals) && WellFormed(b, vlocals) && |vlocals| == n
    requires Leaves(o, EvalFrom(ops, o, c), o0, n, r)
    requires o0.None? ==> Run(step, code, pc0, m).None?
    requires o0.Some? ==> AgreeBelow(o0.value, ms, n) &&
                          Run(step, code, pc0, m) ==
                          Run(step, code, jz + 1 + (if ops.isFalse(Reg(o0.value, r)) then off else 0), ms)
    requires Leaves(Some(ms), Eval(ops, ms, a), Run(step, code, jz + 1, ms), n, n)
    requires Leaves(Some(ms), Eval(ops, ms, b), Run(step, code, jz + 1 + off, ms), n, n)
    ensures Leaves(o, EvalFrom(ops, o, Cond(c, a, b)), Run(step, code, pc0, m), n, n)
  {
    if o0.Some? {
      EvalFrame(ops, o.value, ms, a, vlocals, n);
      EvalFrame(ops, o.value, ms, b, vlocals, n);
    }
  }

  lemma CondStarts(c: Expr, fs: FState, f0: FState, f1: FState, pc0: nat, registers: int)
    requires Pushed(fs, f0, c.Local?) && f1 == BeginCond(f0) && Pushed(fs, f1, false) && f1.stacksize <= registers
    requires Open(f0, pc0, registers) && (!c.Local? ==> CmpIsTop(f0)) && (c.Local? ==> !EndsInCmp(f0))
    ensures var p, r, jz := PopTarget(f0), Top(f0), |f1.code| - 1;
            && 0 <= r < 256 && r < registers && Open(p, pc0, registers) && p.code == f0.code
            && (EndsInCmp(p) ==> Previous(p).value.arg0 == r && |fs.vlocals| <= r)
            && f1.code == Emit(p, Make(OP_JZ, r, 0, 0, 0)).code
            && pc0 <= jz <= |p.code| && f1.code[..jz] == p.code[..jz] && JumpsWithin(p.code[..jz], pc0, jz)
            && IsJump(f1.code[jz].op) && Open(f1, jz + 1, registers) && NothingToFuse(f1)
  {
    PopPushed(fs, f0, c.Local?);
    JumpIsSettled(PopTarget(f0), Top(f0), pc0, registers);
  }

  /** One branch, moved to the target n that f1 pushed. */
  lemma {:induction false} BranchMoved(step: Stepper<Machine>, ops: Ops, lits: seq<SQObject>, a: Expr, fs: FState,
                                       f1: FState, f2: FState, m: Machine)
    requires Interprets(step, ops, lits) && Pushed(fs, f1, false) && Pushed(f1, f2, a.Local?) &&
             f1.stacksize <= |m.regs|
    requires NothingToFuse(f1) && (a.Local? ==> f2.code == f1.code && f2.opt == f1.opt)
    requires Computes(step, ops, a, f1, f2, |f1.code|, m)
    ensures var g, pc, n := MoveTo(f2, |fs.vlocals|), |f1.code|, |fs.vlocals|;
            Open(g, pc, |m.regs|) && g.code[..pc] == f1.code &&
              Leaves(Some(m), Eval(ops, m, a), Run(step, g.code, pc, m), n, n)
  {
    PopPushed(fs, f1, false);
    PopPushed(f1, f2, a.Local?);
    RunAtEnd(step, f1.code, m);
    MoveRuns(step, ops, lits, f2, |fs.vlocals|, Some(m), Eval(ops, m, a), |fs.vlocals| + 1, |f1.code|, m);
  }

  lemma MiddleEmits(f2: FState, g1: FState, trg: int, pc: nat, registers: int)
    requires f2.targets != [] && g1 == MoveTo(f2, trg) && Open(g1, pc, registers) && registers > 0
    ensures var f3 := MiddleCond(trg, f2);
            f3.code == g1.code + [Instr(OP_JMP, 0, 0, 0, 0)] && Open(f3, |g1.code| + 1, registers) && NothingToFuse(f3)
  {
    MakeExact(OP_JMP, 0, 0, 0, 0);
    JumpIsPushed(g1, Instr(OP_JMP, 0, 0, 0, 0), pc, registers);
  }

  lemma BranchesRun(step: Stepper<Machine>, ops: Ops, lits: seq<SQObject>, f1: FState, g1: FState, f3: FState,
                    g3: FState, code: seq<Instr>, jz: nat, jmp: nat, ms: Machine)
    requires Interprets(step, ops, lits) && Branches(f1, g1, f3, g3, jz, jmp, |ms.regs|) &&
             code == PatchedCond(g3, jz, jmp).code
    ensures Run(step, code, jz + 1, ms) == Run(step, g1.code, jz + 1, ms)
    ensures Run(step, code, jmp + 1, ms) == Run(step, g3.code, jmp + 1, ms)
  {
    CondCode(f1, g1, f3, g3, jz, jmp, |ms.regs|);
    FirstBranchRuns(step, ops, lits, g1, code, jz, jmp, ms);
    RunSuffix(step, code, g3.code, jmp + 1, ms);
  }

  /** The condition was computed into register t, p is the code before the jump. */
  ghost predicate AtCondition(p: FState, t: int, f1: FState, jz: nat, pc0: int, registers: int, n: int) {
    && Open(p, pc0, registers) && 0 <= t < 256 && t < registers &&
       (EndsInCmp(p) ==> Previous(p).value.arg0 == t && n <= t)
    && f1.code == Emit(p, Make(OP_JZ, t, 0, 0, 0)).code && jz == |f1.code| - 1
  }

  lemma CondJumps(step: Stepper<Machine>, ops: Ops, lits: seq<SQObject>, p: FState, t: int, f1: FState, g1: FState,
                  f3: FState, g3: FState, code: seq<Instr>, jz: nat, jmp: nat, pc0: nat, m: Machine, ms: Machine,
                  n: int)
    requires Interprets(step, ops, lits) && AtCondition(p, t, f1, jz, pc0, |m.regs|, n)
    requires ms == AtJump(step, f1.code[..jz], pc0, m) && Branches(f1, g1, f3, g3, jz, jmp, |m.regs|) &&
             code == PatchedCond(g3, jz, jmp).code
    ensures var o := Run(step, p.code, pc0, m);
            && (o.None? ==> Run(step, code, pc0, m).None?)
            && (o.Some? ==> AgreeBelow(o.value, ms, n) &&
                            Run(step, code, pc0, m) ==
                            Run(step, code, jz + 1 + (if ops.isFalse(Reg(o.value, t)) then jmp - jz else 0), ms))
  {
    hide Run, Interprets;
    CondCode(f1, g1, f3, g3, jz, jmp, |m.regs|);
    JumpRuns(step, ops, lits, p, t, jz, jmp - jz, code, pc0, m, n, ms);
  }

  /**
   * The code of the whole ?: is built from a condition in register t, and two branches from the machine that reaches
   * the jump.
   */
  lemma CondBuilt(step: Stepper<Machine>, ops: Ops, lits: seq<SQObject>, c: Expr, a: Expr, b: Expr, fs: FState,
                  p: FState, t: int, f1: FState, g1: FState, f3: FState, g3: FState, code: seq<Instr>, jz: nat,
                  jmp: nat, pc0: nat, m: Machine, ms: Machine)
    requires Interprets(step, ops, lits) && WellFormed(a, fs.vlocals) && WellFormed(b, fs.vlocals) &&
             |ms.regs| == |m.regs|
    requires AtCondition(p, t, f1, jz, pc0, |m.regs|, |fs.vlocals|)
    requires ms == AtJump(step, f1.code[..jz], pc0, m) && Branches(f1, g1, f3, g3, jz, jmp, |m.regs|) &&
             code == PatchedCond(g3, jz, jmp).code
    requires var o := Run(step, fs.code, pc0, m);
             Leaves(o, EvalFrom(ops, o, c), Run(step, p.code, pc0, m), |fs.vlocals|, t)
    requires Leaves(Some(ms), Eval(ops, ms, a), Run(step, g1.code, jz + 1, ms), |fs.vlocals|, |fs.vlocals|)
    requires Leaves(Some(ms), Eval(ops, ms, b), Run(step, g3.code, jmp + 1, ms), |fs.vlocals|, |fs.vlocals|)
    ensures var o, n := Run(step, fs.code, pc0, m), |fs.vlocals|;
            Leaves(o, EvalFrom(ops, o, Cond(c, a, b)), Run(step, code, pc0, m), n, n)
  {
    hide Run, Interprets, AtCondition, PatchedCond, Open;
    CondJumps(step, ops, lits, p, t, f1, g1, f3, g3, code, jz, jmp, pc0, m, ms, |fs.vlocals|);
    BranchesRun(step, ops, lits, f1, g1, f3, g3, code, jz, jmp, ms);
    var o := Run(step, fs.code, pc0, m);
    CondLeaves(step, ops, c, a, b, o, Run(step, p.code, pc0, m), t, code, pc0, jz, jmp - jz, m, ms, |fs.vlocals|,
               fs.vlocals);
  }

  lemma {:induction false} CondFinished(step: Stepper<Machine>, ops: Ops, lits: seq<SQObject>, c: Expr, a: Expr,
                                        b: Expr, fs: FState, f0: FState, f1: FState, g1: FState, f3: FState, g3: FState,
                                        r: FState, jz: nat, jmp: nat, pc0: nat, m: Machine, ms: Machine)
    requires Interprets(step, ops, lits) && WellFormed(a, fs.vlocals) && WellFormed(b, fs.vlocals) &&
             |ms.regs| == |m.regs|
    requires Computes(step, ops, c, fs, f0, pc0, m) && Pushed(fs, f0, c.Local?) && (c.Local? ==> !EndsInCmp(f0))
    requires f1 == BeginCond(f0) && Pushed(fs, f1, false) && f1.stacksize <= |m.regs| && |f1.code| == jz + 1
    requires r == PatchedCond(g3, jz, jmp) && Pushed(fs, r, false)
    requires ms == AtJump(step, f1.code[..jz], pc0, m) && Branches(f1, g1, f3, g3, jz, jmp, |m.regs|)
    requires Leaves(Some(ms), Eval(ops, ms, a), Run(step, g1.code, jz + 1, ms), |fs.vlocals|, |fs.vlocals|)
    requires Leaves(Some(ms), Eval(ops, ms, b), Run(step, g3.code, jmp + 1, ms), |fs.vlocals|, |fs.vlocals|)
    ensures Computes(step, ops, Cond(c, a, b), fs, r, pc0, m)
  {
    var p, t := PopTarget(f0), Top(f0);
    CondStarts(c, fs, f0, f1, pc0, |m.regs|);
    CondBuilt(step, ops, lits, c, a, b, fs, p, t, f1, g1, f3, g3, r.code, jz, jmp, pc0, m, ms);
    CondIsOpen(p, f1, g1, f3, g3, pc0, jz, jmp, |m.regs|);
  }

  // ---------- composing the code of the operands ----------

  /** The code of fs' computes e after the code of fs, wherever that is looked at from and from every machine. */
  ghost predicate Correct(step: Stepper<Machine>, ops: Ops, e: Expr, fs: FState, fs': FState, registers: int) {
    forall pc0: nat, m: Machine :: |m.regs| == registers && Open(fs, pc0, registers) ==>
      Computes(step, ops, e, fs, fs', pc0, m)
  }

  ghost predicate OperandsComputed(step: Stepper<Machine>, ops: Ops, a: Expr, b: Expr, fs: FState, f1: FState,
                                   f2: FState, pc0: nat, m: Machine) {
    && Computes(step, ops, a, fs, f1, pc0, m) && Pushed(fs, f1, a.Local?)
    && Computes(step, ops, b, f1, f2, pc0, m) && Pushed(f1, f2, b.Local?)
  }

  lemma BinaryComputes(ops: Ops, lits: seq<SQObject>, i: Instr, m: Machine)
    requires IsBinary(i.op) || ((i.op == OP_EQ || i.op == OP_NE) && i.arg3 == 0)
    ensures ComputedValue(ops, lits, i, m) == Apply2(ops, m.heap, i.op, i.arg3, Reg(m, i.arg2), Reg(m, i.arg1))
  {
  }

  /** The instruction that combines two operands goes into a new target. */
  lemma BinaryIsReady(op: Opcode, op3: int, fs: FState, f1: FState, f2: FState, g: FState, i: Instr, bare1: bool,
                      bare2: bool, pc0: nat, registers: int)
    requires Pushed(fs, f1, bare1) && Pushed(f1, f2, bare2) && Open(f2, pc0, registers)
    requires if op == OP_EQ || op == OP_NE then op3 == 0 else IsBinary(op) && 0 <= op3 < 256
    requires !EmitBinary(op, op3, f2).failed && EmitBinary(op, op3, f2).stacksize <= registers
    requires g == PushTarget(PopTarget(PopTarget(f2))) && i == Instr(op, |fs.vlocals|, Top(f2), Top(f1), op3)
    ensures EmitBinary(op, op3, f2) == Emit(g, i) && g.code == f2.code && g.opt == f2.opt
    ensures Pushed(fs, g, false) && g.stacksize <= registers && Disciplined(g.vlocals, i, registers)
    ensures Operand(fs.vlocals, i.arg1) && Operand(fs.vlocals, i.arg2)
  {
    hide Emit, EmitBinary, Open, Disciplined, IsBinary;
    BinaryPushes(fs, f1, f2, bare1, bare2);
    BinaryEmits(op, op3, fs, f1, f2, g, bare1, bare2);
    OperandsAre(fs, f1, f2, bare1, bare2);
    TargetReady(fs, f2, g, pc0, registers);
    BinaryIsDisciplined(fs.vlocals, i, registers);
  }

  lemma BinaryIsDisciplined(vlocals: seq<bool>, i: Instr, registers: int)
    requires if i.op == OP_EQ || i.op == OP_NE then i.arg3 == 0 else IsBinary(i.op)
    requires i.arg0 == |vlocals| < registers && Operand(vlocals, i.arg1) && Operand(vlocals, i.arg2)
    requires i.arg1 != i.arg2 || IsLocal(vlocals, i.arg1)
    ensures Disciplined(vlocals + [false], i, registers)
  {
  }

  lemma {:induction false} BinaryRuns(step: Stepper<Machine>, ops: Ops, lits: seq<SQObject>, op: Opcode, op3: int,
                                      a: Expr, b: Expr, fs: FState, f1: FState, f2: FState, pc0: nat, m: Machine)
    requires Interprets(step, ops, lits) && WellFormed(Binary(op, op3, a, b), fs.vlocals)
    requires OperandsComputed(step, ops, a, b, fs, f1, f2, pc0, m)
    requires !EmitBinary(op, op3, f2).failed && EmitBinary(op, op3, f2).stacksize <= |m.regs|
    ensures Computes(step, ops, Binary(op, op3, a, b), fs, EmitBinary(op, op3, f2), pc0, m)
  {
    hide Emit, EmitBinary, Run, Interprets, Leaves, Open, ComputedValue, Apply2, Reg, Disciplined, Operand;
    var g, o := PushTarget(PopTarget(PopTarget(f2))), Run(step, fs.code, pc0, m);
    var i := Instr(op, |fs.vlocals|, Top(f2), Top(f1), op3);
    BinaryIsReady(op, op3, fs, f1, f2, g, i, a.Local?, b.Local?, pc0, |m.regs|);
    var x, y := EvalFrom(ops, o, a), EvalFrom(ops, o, b);
    var v := if x.Some? && y.Some? then Apply2(ops, o.value.heap, op, op3, x.value, y.value) else None;
    forall m2: Machine | o.Some? && x.Some? && y.Some? && m2.heap == o.value.heap && Reg(m2, Top(f1)) == x.value
                         && Reg(m2, Top(f2)) == y.value
      ensures ComputedValue(ops, lits, i, m2) == v
    {
      BinaryComputes(ops, lits, i, m2);
    }
    TwoOperandsRun(step, ops, lits, Binary(op, op3, a, b), a, b, fs, f1, f2, g, i, pc0, m, v);
  }

  lemma {:induction false} IndexRuns(step: Stepper<Machine>, ops: Ops, lits: seq<SQObject>, a: Expr, b: Expr,
                                     fs: FState, f1: FState, f2: FState, pc0: nat, m: Machine)
    requires Interprets(step, ops, lits) && WellFormed(Index(a, b), fs.vlocals)
    requires OperandsComputed(step, ops, a, b, fs, f1, f2, pc0, m) && (Top(f1) == 0 <==> IsThis(a))
    requires !EmitGet(f2).failed && EmitGet(f2).stacksize <= |m.regs|
    ensures Computes(step, ops, Index(a, b), fs, EmitGet(f2), pc0, m)
  {
    var g, o := PushTarget(PopTarget(PopTarget(f2))), Run(step, fs.code, pc0, m);
    var i := Instr(OP_GET, |fs.vlocals|, Top(f1), Top(f2), 0);
    BinaryPushes(fs, f1, f2, a.Local?, b.Local?);
    BinaryEmits(OP_GET, 0, fs, f1, f2, g, a.Local?, b.Local?);
    OperandsAre(fs, f1, f2, a.Local?, b.Local?);
    TargetReady(fs, f2, g, pc0, |m.regs|);
    var x, y := EvalFrom(ops, o, a), EvalFrom(ops, o, b);
    var v := if x.Some? && y.Some? then ops.get(o.value.heap, IsThis(a), x.value, y.value) else None;
    TwoOperandsRun(step, ops, lits, Index(a, b), a, b, fs, f1, f2, g, i, pc0, m, v);
  }

  lemma {:induction false} ShortCircuitCase(step: Stepper<Machine>, ops: Ops, lits: seq<SQObject>, op: Opcode, a: Expr,
                                            b: Expr, fs: FState, f1: FState, f2: FState, f3: FState, r: FState,
                                            pc0: nat, m: Machine)
    requires Interprets(step, ops, lits) && IsShortCircuit(op) && WellFormed(b, fs.vlocals) && Open(fs, pc0, |m.regs|)
    requires Correct(step, ops, a, fs, f1, |m.regs|) && Correct(step, ops, b, f2, f3, |m.regs|)
    requires Pushed(fs, f1, a.Local?) && Pushed(fs, f2, false) && Pushed(f2, f3, b.Local?) && f2.stacksize <= |m.regs|
    requires f2 == BeginShortCircuit(op, f1) && r == EndShortCircuit(|f1.code|, Top(f2), f3)
    ensures Computes(step, ops, ShortCircuit(op, a, b), fs, r, pc0, m)
  {
    hide Emit;
    assert Computes(step, ops, a, fs, f1, pc0, m);
    var m1 := AtJump(step, f1.code, pc0, m);
    RunKeepsSize(step, ops, lits, f1.code, pc0, m);
    SecondStarts(step, ops, lits, op, b, fs, a.Local?, f1, f2, pc0, m1);
    assert Computes(step, ops, b, f2, f3, |f1.code| + 1, m1);
    ShortCircuitBuilt(step, ops, lits, op, fs, b.Local?, f1, f2, f3, r, pc0, m1, Run(step, f2.code, |f1.code| + 1, m1),
                      Eval(ops, m1, b));
    ShortCircuitRuns(step, ops, lits, op, a, b, fs, f1, r, pc0, m, m1);
  }

  /** A branch of ?: compiled after the jump that ends f1, and moved to the target. */
  lemma BranchCase(step: Stepper<Machine>, ops: Ops, lits: seq<SQObject>, a: Expr, fs: FState, f1: FState, f2: FState,
                   m: Machine) returns (g: FState)
    requires Interprets(step, ops, lits) && Correct(step, ops, a, f1, f2, |m.regs|) && f1.stacksize <= |m.regs|
    requires Pushed(fs, f1, false) && Pushed(f1, f2, a.Local?) && Open(f1, |f1.code|, |m.regs|) && NothingToFuse(f1)
    requires a.Local? ==> f2.code == f1.code && f2.opt == f1.opt
    ensures g == MoveTo(f2, |fs.vlocals|) && Open(g, |f1.code|, |m.regs|) && |f1.code| <= |g.code| &&
            g.code[..|f1.code|] == f1.code
    ensures Leaves(Some(m), Eval(ops, m, a), Run(step, g.code, |f1.code|, m), |fs.vlocals|, |fs.vlocals|)
  {
    assert Computes(step, ops, a, f1, f2, |f1.code|, m);
    BranchMoved(step, ops, lits, a, fs, f1, f2, m);
    g := MoveTo(f2, |fs.vlocals|);
  }

  lemma EndCondIsPatched(jz: nat, jmp: nat, fs: FState, f3: FState, f4: FState, g3: FState, bare: bool)
    requires Pushed(fs, f3, false) && Pushed(f3, f4, bare) && g3 == MoveTo(f4, |fs.vlocals|)
    ensures var r := EndCond(jz, jmp, Top(f3), f4); r == PatchedCond(g3, jz, jmp) && Pushed(fs, r, false)
  {
    EndCondPushes(jz, jmp, fs, f3, f4, bare);
  }

  /** Both branches of ?:, run from the machine ms that reaches the jump. */
  lemma BranchesCase(step: Stepper<Machine>, ops: Ops, lits: seq<SQObject>, a: Expr, b: Expr, fs: FState, f1: FState,
                     f2: FState, f3: FState, f4: FState, jz: nat, ms: Machine)
    returns (g1: FState, g3: FState, jmp: nat)
    requires Interprets(step, ops, lits) && jz == |f1.code| - 1
    requires Correct(step, ops, a, f1, f2, |ms.regs|) && Correct(step, ops, b, f3, f4, |ms.regs|)
    requires Pushed(fs, f1, false) && Pushed(f1, f2, a.Local?) && Pushed(fs, f3, false) && Pushed(f3, f4, b.Local?)
    requires f3 == MiddleCond(Top(f1), f2)
    requires f1.stacksize <= |ms.regs| && f3.stacksize <= |ms.regs|
    requires Open(f1, jz + 1, |ms.regs|) && NothingToFuse(f1) && IsJump(f1.code[jz].op)
    requires (a.Local? ==> f2.code == f1.code && f2.opt == f1.opt) &&
             (b.Local? ==> f4.code == f3.code && f4.opt == f3.opt)
    ensures jmp == |f3.code| - 1 && g3 == MoveTo(f4, |fs.vlocals|) && Branches(f1, g1, f3, g3, jz, jmp, |ms.regs|)
    ensures Leaves(Some(ms), Eval(ops, ms, a), Run(step, g1.code, jz + 1, ms), |fs.vlocals|, |fs.vlocals|)
    ensures Leaves(Some(ms), Eval(ops, ms, b), Run(step, g3.code, jmp + 1, ms), |fs.vlocals|, |fs.vlocals|)
  {
    hide MoveTo, MiddleCond, Run, Eval, Interprets, Correct, Leaves, Segment, Emit;
    g1 := BranchCase(step, ops, lits, a, fs, f1, f2, ms);
    MiddleEmits(f2, g1, |fs.vlocals|, |f1.code|, |ms.regs|);
    jmp := |g1.code|;
    g3 := BranchCase(step, ops, lits, b, fs, f3, f4, ms);
  }

  lemma {:induction false} CondCase(step: Stepper<Machine>, ops: Ops, lits: seq<SQObject>, c: Expr, a: Expr, b: Expr,
                                    fs: FState, f0: FState, f1: FState, f2: FState, f3: FState, f4: FState, r: FState,
                                    pc0: nat, m: Machine)
    requires Interprets(step, ops, lits) && WellFormed(a, fs.vlocals) && WellFormed(b, fs.vlocals) &&
             Open(fs, pc0, |m.regs|)
    requires Correct(step, ops, c, fs, f0, |m.regs|) && Correct(step, ops, a, f1, f2, |m.regs|) &&
             Correct(step, ops, b, f3, f4, |m.regs|)
    requires Pushed(fs, f0, c.Local?) && Pushed(fs, f1, false) && Pushed(f1, f2, a.Local?) && Pushed(fs, f3, false) &&
             Pushed(f3, f4, b.Local?)
    requires f1.stacksize <= |m.regs| && f3.stacksize <= |m.regs| && (c.Local? ==> !EndsInCmp(f0))
    requires (a.Local? ==> f2.code == f1.code && f2.opt == f1.opt) &&
             (b.Local? ==> f4.code == f3.code && f4.opt == f3.opt)
    requires f1 == BeginCond(f0) && f3 == MiddleCond(Top(f1), f2) &&
             r == EndCond(|f1.code| - 1, |f3.code| - 1, Top(f1), f4)
    ensures Computes(step, ops, Cond(c, a, b), fs, r, pc0, m)
  {
    hide MoveTo, BeginCond, MiddleCond, EndCond, Run, Eval, WellFormed;
    var jz := |f1.code| - 1;
    assert Computes(step, ops, c, fs, f0, pc0, m);
    CondStarts(c, fs, f0, f1, pc0, |m.regs|);
    var ms := AtJump(step, f1.code[..jz], pc0, m);
    RunKeepsSize(step, ops, lits, f1.code[..jz], pc0, m);
    var g1, g3, jmp := BranchesCase(step, ops, lits, a, b, fs, f1, f2, f3, f4, jz, ms);
    EndCondIsPatched(jz, jmp, fs, f3, f4, g3, b.Local?);
    CondFinished(step, ops, lits, c, a, b, fs, f0, f1, g1, f3, g3, r, jz, jmp, pc0, m, ms);
  }

  // ---------- the main theorem ----------

  lemma {:induction false} SubReady(e: Expr, fs: FState, f1: FState, r: FState, lits: seq<SQObject>, registers: int)
    requires WellFormed(e, fs.vlocals) && Allocated(fs) && NoStrayJump(e, fs)
    requires f1 == Compile(e, fs) && Grows(f1, r) && Fits(r, lits, registers)
    ensures Ready(e, fs, lits, registers)
  {
  }

  /**
   * The code compiled for e computes the value of e, after every code, from every machine and over all operations on
   * values.
   */
  lemma {:induction false} CompileCorrect(step: Stepper<Machine>, ops: Ops, lits: seq<SQObject>, e: Expr, fs: FState,
                                          registers: nat)
    requires Interprets(step, ops, lits) && Ready(e, fs, lits, registers)
    ensures Correct(step, ops, e, fs, Compile(e, fs), registers)
    decreases e, 2
  {
    match e
    case Local(p) =>
    case Const(c) => ConstCorrect(step, ops, lits, c, fs, registers);
    case Binary(op, op3, a, b) => BinaryCorrect(step, ops, lits, op, op3, a, b, fs, registers);
    case Unary(op, a) => UnaryCorrect(step, ops, lits, op, a, fs, registers);
    case Index(a, b) => IndexCorrect(step, ops, lits, a, b, fs, registers);
    case And(a, b) => LogicalCorrect(step, ops, lits, e, OP_AND, a, b, fs, registers);
    case Or(a, b) => LogicalCorrect(step, ops, lits, e, OP_OR, a, b, fs, registers);
    case Cond(c, a, b) => CondCorrect(step, ops, lits, c, a, b, fs, registers);
  }

  lemma ConstCorrect(step: Stepper<Machine>, ops: Ops, lits: seq<SQObject>, c: SQObject, fs: FState, registers: nat)
    requires Interprets(step, ops, lits) && Ready(Const(c), fs, lits, registers)
    ensures Correct(step, ops, Const(c), fs, CompileConst(c, fs), registers)
  {
    forall pc0: nat, m: Machine | |m.regs| == registers && Open(fs, pc0, registers)
      ensures Computes(step, ops, Const(c), fs, CompileConst(c, fs), pc0, m)
    {
      ConstRuns(step, ops, lits, c, fs, pc0, m);
    }
  }

  lemma {:induction false} UnaryCorrect(step: Stepper<Machine>, ops: Ops, lits: seq<SQObject>, op: Opcode, a: Expr,
                                        fs: FState, registers: nat)
    requires Interprets(step, ops, lits) && Ready(Unary(op, a), fs, lits, registers)
    ensures Correct(step, ops, Unary(op, a), fs, EmitUnary(op, Compile(a, fs)), registers)
    decreases Unary(op, a), 1
  {
    var f1 := Compile(a, fs);
    SubReady(a, fs, f1, EmitUnary(op, f1), lits, registers);
    CompileCorrect(step, ops, lits, a, fs, registers);
    CompilePushes(a, fs);
    UnaryComposes(step, ops, lits, op, a, fs, f1, registers);
  }

  lemma UnaryComposes(step: Stepper<Machine>, ops: Ops, lits: seq<SQObject>, op: Opcode, a: Expr, fs: FState,
                      f1: FState, registers: nat)
    requires Interprets(step, ops, lits) && IsUnary(op) && Pushed(fs, f1, a.Local?) &&
             Correct(step, ops, a, fs, f1, registers)
    requires !EmitUnary(op, f1).failed && EmitUnary(op, f1).stacksize <= registers
    ensures Correct(step, ops, Unary(op, a), fs, EmitUnary(op, f1), registers)
  {
    PopPushed(fs, f1, a.Local?);
    PushTargetPushes(PopTarget(f1));
    forall pc0: nat, m: Machine | |m.regs| == registers && Open(fs, pc0, registers)
      ensures Computes(step, ops, Unary(op, a), fs, EmitUnary(op, f1), pc0, m)
    {
      assert Computes(step, ops, a, fs, f1, pc0, m);
      UnaryRuns(step, ops, lits, op, a, fs, f1, PushTarget(PopTarget(f1)), pc0, m);
    }
  }

  /** Both operands are correct, r being what the code grows into. */
  lemma {:induction false} OperandsCorrect(step: Stepper<Machine>, ops: Ops, lits: seq<SQObject>, e: Expr, a: Expr,
                                           b: Expr, fs: FState, f1: FState, f2: FState, r: FState, registers: nat)
    requires a < e && b < e && Interprets(step, ops, lits)
    requires WellFormed(a, fs.vlocals) && WellFormed(b, fs.vlocals) && Allocated(fs)
    requires f1 == Compile(a, fs) && f2 == Compile(b, f1) && NoStrayJump(a, fs) && NoStrayJump(b, f1)
    requires Grows(f2, r) && Fits(r, lits, registers)
    ensures Correct(step, ops, a, fs, f1, registers) && Pushed(fs, f1, a.Local?)
    ensures Correct(step, ops, b, f1, f2, registers) && Pushed(f1, f2, b.Local?)
    decreases e, 0
  {
    hide Compile, Correct, Interprets, NoStrayJump;
    CompileGrows(b, f1);
    SubReady(a, fs, f1, r, lits, registers);
    CompileCorrect(step, ops, lits, a, fs, registers);
    CompilePushes(a, fs);
    StillWellFormed(b, fs.vlocals, f1.vlocals);
    SubReady(b, f1, f2, r, lits, registers);
    CompileCorrect(step, ops, lits, b, f1, registers);
    CompilePushes(b, f1);
  }

  lemma {:induction false} BinaryCorrect(step: Stepper<Machine>, ops: Ops, lits: seq<SQObject>, op: Opcode, op3: int,
                                         a: Expr, b: Expr, fs: FState, registers: nat)
    requires Interprets(step, ops, lits) && Ready(Binary(op, op3, a, b), fs, lits, registers)
    ensures Correct(step, ops, Binary(op, op3, a, b), fs, EmitBinary(op, op3, Compile(b, Compile(a, fs))), registers)
    decreases Binary(op, op3, a, b), 1
  {
    hide Emit;
    var f1 := Compile(a, fs);
    var f2 := Compile(b, f1);
    OperandsCorrect(step, ops, lits, Binary(op, op3, a, b), a, b, fs, f1, f2, EmitBinary(op, op3, f2), registers);
    BinaryComposes(step, ops, lits, op, op3, a, b, fs, f1, f2, registers);
  }

  lemma {:induction false} BinaryComposes(step: Stepper<Machine>, ops: Ops, lits: seq<SQObject>, op: Opcode, op3: int,
                                          a: Expr, b: Expr, fs: FState, f1: FState, f2: FState, registers: nat)
    requires Interprets(step, ops, lits) && WellFormed(Binary(op, op3, a, b), fs.vlocals)
    requires Correct(step, ops, a, fs, f1, registers) && Pushed(fs, f1, a.Local?)
    requires Correct(step, ops, b, f1, f2, registers) && Pushed(f1, f2, b.Local?)
    requires !EmitBinary(op, op3, f2).failed && EmitBinary(op, op3, f2).stacksize <= registers
    ensures Correct(step, ops, Binary(op, op3, a, b), fs, EmitBinary(op, op3, f2), registers)
  {
    forall pc0: nat, m: Machine | |m.regs| == registers && Open(fs, pc0, registers)
      ensures Computes(step, ops, Binary(op, op3, a, b), fs, EmitBinary(op, op3, f2), pc0, m)
    {
      assert Computes(step, ops, a, fs, f1, pc0, m) && Computes(step, ops, b, f1, f2, pc0, m);
      BinaryRuns(step, ops, lits, op, op3, a, b, fs, f1, f2, pc0, m);
    }
  }

  /** Only `this` has its value in register 0. */
  lemma {:induction false} ThisIsFirst(a: Expr, fs: FState)
    requires Pushed(fs, Compile(a, fs), a.Local?)
    ensures Top(Compile(a, fs)) == 0 <==> IsThis(a)
  {
    if a.Local? { CompileLeaves(a.pos, Null, fs); }
  }

  lemma {:induction false} IndexCorrect(step: Stepper<Machine>, ops: Ops, lits: seq<SQObject>, a: Expr, b: Expr,
                                        fs: FState, registers: nat)
    requires Interprets(step, ops, lits) && Ready(Index(a, b), fs, lits, registers)
    ensures Correct(step, ops, Index(a, b), fs, EmitGet(Compile(b, Compile(a, fs))), registers)
    decreases Index(a, b), 1
  {
    var f1 := Compile(a, fs);
    var f2 := Compile(b, f1);
    OperandsCorrect(step, ops, lits, Index(a, b), a, b, fs, f1, f2, EmitGet(f2), registers);
    ThisIsFirst(a, fs);
    forall pc0: nat, m: Machine | |m.regs| == registers && Open(fs, pc0, registers)
      ensures Computes(step, ops, Index(a, b), fs, EmitGet(f2), pc0, m)
    {
      assert Computes(step, ops, a, fs, f1, pc0, m) && Computes(step, ops, b, f1, f2, pc0, m);
      IndexRuns(step, ops, lits, a, b, fs, f1, f2, pc0, m);
    }
  }

  /** The operands of && and || are correct, f2 being the start of the second. */
  lemma {:induction false} ShortCircuitCorrect(step: Stepper<Machine>, ops: Ops, lits: seq<SQObject>, e: Expr,
                                               op: Opcode, a: Expr, b: Expr, fs: FState, f1: FState, f2: FState,
                                               f3: FState, r: FState, registers: nat)
    requires a < e && b < e && Interprets(step, ops, lits) && IsShortCircuit(op)
    requires WellFormed(a, fs.vlocals) && WellFormed(b, fs.vlocals) && Allocated(fs)
    requires f1 == Compile(a, fs) && f2 == BeginShortCircuit(op, f1) && f3 == Compile(b, f2) && NoStrayJump(a, fs) &&
             NoStrayJump(b, f2)
    requires r == EndShortCircuit(|f1.code|, Top(f2), f3) && Fits(r, lits, registers)
    ensures Correct(step, ops, ShortCircuit(op, a, b), fs, r, registers)
    decreases e, 0
  {
    hide Compile, Correct, Interprets, NoStrayJump;
    CompileGrows(b, f2);
    ShortCircuitPushes(e, op, a, b, fs);
    SubReady(a, fs, f1, r, lits, registers);
    CompileCorrect(step, ops, lits, a, fs, registers);
    StillWellFormed(b, fs.vlocals, f2.vlocals);
    SubReady(b, f2, f3, r, lits, registers);
    CompileCorrect(step, ops, lits, b, f2, registers);
    ShortCircuitComposes(step, ops, lits, op, a, b, fs, f1, f2, f3, r, registers);
  }

  lemma {:induction false} ShortCircuitComposes(step: Stepper<Machine>, ops: Ops, lits: seq<SQObject>, op: Opcode,
                                                a: Expr, b: Expr, fs: FState, f1: FState, f2: FState, f3: FState,
                                                r: FState, registers: nat)
    requires Interprets(step, ops, lits) && IsShortCircuit(op) && WellFormed(b, fs.vlocals)
    requires Correct(step, ops, a, fs, f1, registers) && Correct(step, ops, b, f2, f3, registers)
    requires Pushed(fs, f1, a.Local?) && Pushed(fs, f2, false) && Pushed(f2, f3, b.Local?) && f2.stacksize <= registers
    requires f2 == BeginShortCircuit(op, f1) && r == EndShortCircuit(|f1.code|, Top(f2), f3)
    ensures Correct(step, ops, ShortCircuit(op, a, b), fs, r, registers)
  {
    forall pc0: nat, m: Machine | |m.regs| == registers && Open(fs, pc0, registers)
      ensures Computes(step, ops, ShortCircuit(op, a, b), fs, r, pc0, m)
    {
      ShortCircuitCase(step, ops, lits, op, a, b, fs, f1, f2, f3, r, pc0, m);
    }
  }

  lemma {:induction false} CompileAnd(a: Expr, b: Expr, fs: FState, f1: FState, f2: FState, f3: FState)
    requires f1 == Compile(a, fs) && f2 == BeginShortCircuit(OP_AND, f1) && f3 == Compile(b, f2)
    ensures Compile(And(a, b), fs) == EndShortCircuit(|f1.code|, Top(f2), f3)
  {
    hide SameTargets, PushTarget, PopTarget, Top, PushRegister, CompileConst, EmitBinary, EmitGet, EmitUnary,
      BeginShortCircuit, EndShortCircuit,
      BeginCond, MiddleCond, EndCond;
  }

  lemma {:induction false} PartsOfAnd(a: Expr, b: Expr, fs: FState, f1: FState, f2: FState)
    requires f1 == Compile(a, fs) && f2 == BeginShortCircuit(OP_AND, f1)
    requires NoStrayJump(And(a, b), fs) && WellFormed(And(a, b), fs.vlocals)
    ensures NoStrayJump(a, fs) && NoStrayJump(b, f2) && WellFormed(a, fs.vlocals) && WellFormed(b, fs.vlocals)
  {
    hide Compile, EndsInCmp, BeginShortCircuit;
  }

  lemma {:induction false} CompileOr(a: Expr, b: Expr, fs: FState, f1: FState, f2: FState, f3: FState)
    requires f1 == Compile(a, fs) && f2 == BeginShortCircuit(OP_OR, f1) && f3 == Compile(b, f2)
    ensures Compile(Or(a, b), fs) == EndShortCircuit(|f1.code|, Top(f2), f3)
  {
    hide SameTargets, PushTarget, PopTarget, Top, PushRegister, CompileConst, EmitBinary, EmitGet, EmitUnary,
      BeginShortCircuit, EndShortCircuit,
      BeginCond, MiddleCond, EndCond;
  }

  lemma {:induction false} PartsOfOr(a: Expr, b: Expr, fs: FState, f1: FState, f2: FState)
    requires f1 == Compile(a, fs) && f2 == BeginShortCircuit(OP_OR, f1)
    requires NoStrayJump(Or(a, b), fs) && WellFormed(Or(a, b), fs.vlocals)
    ensures NoStrayJump(a, fs) && NoStrayJump(b, f2) && WellFormed(a, fs.vlocals) && WellFormed(b, fs.vlocals)
  {
    hide Compile, EndsInCmp, BeginShortCircuit;
  }

  lemma {:induction false} LogicalCorrect(step: Stepper<Machine>, ops: Ops, lits: seq<SQObject>, e: Expr, op: Opcode,
                                          a: Expr, b: Expr, fs: FState, registers: nat)
    requires a < e && b < e && IsShortCircuit(op) && e == ShortCircuit(op, a, b)
    requires Interprets(step, ops, lits) && Ready(e, fs, lits, registers)
    ensures Correct(step, ops, e, fs, Compile(e, fs), registers)
    decreases e, 1
  {
    hide Compile, NoStrayJump, WellFormed, BeginShortCircuit, EndShortCircuit, Correct, Interprets, Allocated, Fits;
    var f1 := Compile(a, fs);
    var f2 := BeginShortCircuit(op, f1);
    if op == OP_AND {
      CompileAnd(a, b, fs, f1, f2, Compile(b, f2));
      PartsOfAnd(a, b, fs, f1, f2);
    } else {
      CompileOr(a, b, fs, f1, f2, Compile(b, f2));
      PartsOfOr(a, b, fs, f1, f2);
    }
    ShortCircuitCorrect(step, ops, lits, e, op, a, b, fs, f1, f2, Compile(b, f2), Compile(e, fs), registers);
  }

  lemma {:induction false} CompileCond(c: Expr, a: Expr, b: Expr, fs: FState, f1: FState, f3: FState, f4: FState)
    requires f1 == BeginCond(Compile(c, fs)) && f3 == MiddleCond(Top(f1), Compile(a, f1)) && f4 == Compile(b, f3)
    ensures Compile(Cond(c, a, b), fs) == EndCond(|f1.code| - 1, |f3.code| - 1, Top(f1), f4)
  {
    hide SameTargets, PushTarget, PopTarget, Top, PushRegister, CompileConst, EmitBinary, EmitGet, EmitUnary,
      BeginShortCircuit, EndShortCircuit, BeginCond, MiddleCond, EndCond;
  }

  lemma {:induction false} CompileLeaves(p: int, c: SQObject, fs: FState)
    ensures Compile(Local(p), fs) == PushRegister(fs, p) && Compile(Const(c), fs) == CompileConst(c, fs)
  {
    hide SameTargets, PushTarget, PopTarget, Top, CompileConst, EmitBinary, EmitGet, EmitUnary, BeginShortCircuit,
         EndShortCircuit, BeginCond, MiddleCond, EndCond;
  }

  lemma {:induction false} CompileBinary(op: Opcode, op3: int, a: Expr, b: Expr, fs: FState)
    ensures Compile(Binary(op, op3, a, b), fs) == EmitBinary(op, op3, Compile(b, Compile(a, fs)))
  {
    hide SameTargets, PushTarget, PopTarget, Top, CompileConst, EmitBinary, EmitGet, EmitUnary, BeginShortCircuit,
         EndShortCircuit, BeginCond, MiddleCond, EndCond;
  }

  lemma {:induction false} CompileUnary(op: Opcode, a: Expr, fs: FState)
    ensures Compile(Unary(op, a), fs) == EmitUnary(op, Compile(a, fs))
  {
    hide SameTargets, PushTarget, PopTarget, Top, CompileConst, EmitBinary, EmitGet, EmitUnary, BeginShortCircuit,
         EndShortCircuit, BeginCond, MiddleCond, EndCond;
  }

  lemma {:induction false} CompileIndex(a: Expr, b: Expr, fs: FState)
    ensures Compile(Index(a, b), fs) == EmitGet(Compile(b, Compile(a, fs)))
  {
    hide SameTargets, PushTarget, PopTarget, Top, CompileConst, EmitBinary, EmitGet, EmitUnary, BeginShortCircuit,
         EndShortCircuit, BeginCond, MiddleCond, EndCond;
  }

  lemma ConstIsNoCmp(c: SQObject, fs: FState)
    ensures CompileConst(c, fs).targets != [] && CmpIsTop(CompileConst(c, fs))
  {
    var p := PushTarget(if NeedsLiteral(c) then AddConstant(fs, c) else fs);
    EmitEndsInCmp(p, LoadOf(p.lits, Top(p), c));
  }

  lemma UnaryIsNoCmp(op: Opcode, f1: FState)
    requires |f1.targets| >= 1 && IsUnary(op)
    ensures EmitUnary(op, f1).targets != [] && CmpIsTop(EmitUnary(op, f1))
  {
    var g := PushTarget(PopTarget(f1));
    EmitEndsInCmp(g, Make(op, Top(g), Top(f1), 0, 0));
  }

  /** Where branches join the optimiser snoozes. */
  lemma EndIsNoCmp(pos: int, jmp: int, trg: int, f3: FState)
    requires |f3.targets| >= 2
    ensures CmpIsTop(EndShortCircuit(pos, trg, f3)) && CmpIsTop(EndCond(pos, jmp, trg, f3))
  {
  }

  lemma EmittedCmpIsTop(op: Opcode, op3: int, f2: FState)
    requires |f2.targets| >= 2 && 0 <= Top(EmitBinary(op, op3, f2)) < 256
    ensures CmpIsTop(EmitBinary(op, op3, f2))
  {
    var g := PushTarget(PopTarget(PopTarget(f2)));
    EmitEndsInCmp(g, Make(op, Top(g), Top(f2), Top(PopTarget(f2)), op3));
  }

  lemma GetIsNoCmp(f2: FState)
    requires |f2.targets| >= 2
    ensures EmitGet(f2).targets != [] && CmpIsTop(EmitGet(f2))
  {
    var g := PushTarget(PopTarget(PopTarget(f2)));
    EmitEndsInCmp(g, Make(OP_GET, Top(g), Top(PopTarget(f2)), Top(f2), 0));
  }

  /** A comparison that JZ would be fused with is the one that computed the expression's own value. */
  lemma {:induction false} CompiledCmpIsTop(e: Expr, fs: FState)
    requires WellFormed(e, fs.vlocals) && Allocated(fs) && !Compile(e, fs).failed && !e.Local?
    ensures CmpIsTop(Compile(e, fs))
  {
    hide Compile, Allocated, Pushed, CmpIsTop, EndsInCmp, BeginShortCircuit, EndShortCircuit, BeginCond, MiddleCond,
         EndCond, EmitBinary, EmitGet, EmitUnary, CompileConst;
    CompilePushes(e, fs);
    PopPushed(fs, Compile(e, fs), false);
    match e
    case Const(c) =>
      CompileLeaves(0, c, fs);
      ConstIsNoCmp(c, fs);
    case Binary(op, op3, a, b) =>
      CompileBinary(op, op3, a, b, fs);
      EmittedCmpIsTop(op, op3, Compile(b, Compile(a, fs)));
    case Unary(op, a) =>
      CompileUnary(op, a, fs);
      UnaryIsNoCmp(op, Compile(a, fs));
    case Index(a, b) =>
      CompileIndex(a, b, fs);
      GetIsNoCmp(Compile(b, Compile(a, fs)));
    case And(a, b) =>
      var f1 := Compile(a, fs);
      var f2 := BeginShortCircuit(OP_AND, f1);
      CompileAnd(a, b, fs, f1, f2, Compile(b, f2));
      EndIsNoCmp(|f1.code|, 0, Top(f2), Compile(b, f2));
    case Or(a, b) =>
      var f1 := Compile(a, fs);
      var f2 := BeginShortCircuit(OP_OR, f1);
      CompileOr(a, b, fs, f1, f2, Compile(b, f2));
      EndIsNoCmp(|f1.code|, 0, Top(f2), Compile(b, f2));
    case Cond(c, a, b) =>
      var f1 := BeginCond(Compile(c, fs));
      var f3 := MiddleCond(Top(f1), Compile(a, f1));
      CompileCond(c, a, b, fs, f1, f3, Compile(b, f3));
      EndIsNoCmp(|f1.code| - 1, |f3.code| - 1, Top(f1), Compile(b, f3));
  }

  lemma {:induction false} LocalEmitsNothing(e: Expr, fs: FState)
    requires e.Local?
    ensures var f := Compile(e, fs); f.code == fs.code && f.opt == fs.opt && EndsInCmp(f) == EndsInCmp(fs)
  {
  }

  /** Every JZ of an expression is fused with no comparison but the one that computed its own condition. */
  ghost predicate JumpsAreOwn(e: Expr, fs: FState) {
    match e
    case Local(_) => true
    case Const(_) => true
    case Binary(_, _, a, b) => JumpsAreOwn(a, fs) && JumpsAreOwn(b, Compile(a, fs))
    case Unary(_, a) => JumpsAreOwn(a, fs)
    case Index(a, b) => JumpsAreOwn(a, fs) && JumpsAreOwn(b, Compile(a, fs))
    case And(a, b) => JumpsAreOwn(a, fs) && JumpsAreOwn(b, BeginShortCircuit(OP_AND, Compile(a, fs)))
    case Or(a, b) => JumpsAreOwn(a, fs) && JumpsAreOwn(b, BeginShortCircuit(OP_OR, Compile(a, fs)))
    case Cond(c, a, b) =>
      var f1 := BeginCond(Compile(c, fs));
      && JumpsAreOwn(c, fs) && CmpIsTop(Compile(c, fs))
      && JumpsAreOwn(a, f1) && JumpsAreOwn(b, MiddleCond(Top(f1), Compile(a, f1)))
  }

  ghost predicate Compiles(e: Expr, fs: FState) {
    WellFormed(e, fs.vlocals) && Allocated(fs) && !Compile(e, fs).failed
  }

  lemma {:induction false} OperandsCompile(a: Expr, b: Expr, fs: FState)
    requires WellFormed(a, fs.vlocals) && WellFormed(b, fs.vlocals) && Allocated(fs)
    requires !Compile(b, Compile(a, fs)).failed
    ensures Compiles(a, fs) && Compiles(b, Compile(a, fs))
  {
    hide Compile;
    CompileGrows(b, Compile(a, fs));
    CompilePushes(a, fs);
    StillWellFormed(b, fs.vlocals, Compile(a, fs).vlocals);
  }

  lemma {:induction false} ShortCircuitCompiles(op: Opcode, a: Expr, b: Expr, fs: FState)
    requires WellFormed(a, fs.vlocals) && WellFormed(b, fs.vlocals) && Allocated(fs)
    requires !Compile(b, BeginShortCircuit(op, Compile(a, fs))).failed
    ensures Compiles(a, fs) && Compiles(b, BeginShortCircuit(op, Compile(a, fs)))
  {
    hide Compile;
    var f2 := BeginShortCircuit(op, Compile(a, fs));
    ShortCircuitPushes(ShortCircuit(op, a, b), op, a, b, fs);
    CompileGrows(b, f2);
    StillWellFormed(b, fs.vlocals, f2.vlocals);
  }

  lemma {:induction false} BranchesCompile(c: Expr, a: Expr, b: Expr, fs: FState)
    requires WellFormed(c, fs.vlocals) && WellFormed(a, fs.vlocals) && WellFormed(b, fs.vlocals) && Allocated(fs)
    requires var f1 := BeginCond(Compile(c, fs)); !Compile(b, MiddleCond(Top(f1), Compile(a, f1))).failed
    ensures var f1 := BeginCond(Compile(c, fs));
            Compiles(c, fs) && Compiles(a, f1) && Compiles(b, MiddleCond(Top(f1), Compile(a, f1)))
  {
    hide Compile;
    var f1 := BeginCond(Compile(c, fs));
    var f3 := MiddleCond(Top(f1), Compile(a, f1));
    CondPushes(Cond(c, a, b), c, a, b, fs);
    CompileGrows(a, f1);
    CompileGrows(b, f3);
    StillWellFormed(a, fs.vlocals, f1.vlocals);
    StillWellFormed(b, fs.vlocals, f3.vlocals);
  }

  lemma {:induction false} ConditionIsOwn(c: Expr, fs: FState)
    requires Compiles(c, fs) && (c.Local? ==> !EndsInCmp(fs))
    ensures CmpIsTop(Compile(c, fs))
  {
    hide Compile, EndsInCmp;
    if c.Local? { LocalEmitsNothing(c, fs); } else { CompiledCmpIsTop(c, fs); }
  }

  /** Without a stray jump all jumps are their own. */
  lemma {:induction false} NoStrayJumpIsOwn(e: Expr, fs: FState)
    requires Compiles(e, fs) && NoStrayJump(e, fs)
    ensures JumpsAreOwn(e, fs)
    decreases e
  {
    hide Compile, Allocated, CmpIsTop, EndsInCmp, BeginShortCircuit, BeginCond, MiddleCond;
    match e
    case Local(_) =>
    case Const(_) =>
    case Binary(op, op3, a, b) =>
      CompileBinary(op, op3, a, b, fs);
      OperandsCompile(a, b, fs);
      NoStrayJumpIsOwn(a, fs);
      NoStrayJumpIsOwn(b, Compile(a, fs));
    case Unary(op, a) =>
      CompileUnary(op, a, fs);
      NoStrayJumpIsOwn(a, fs);
    case Index(a, b) =>
      CompileIndex(a, b, fs);
      OperandsCompile(a, b, fs);
      NoStrayJumpIsOwn(a, fs);
      NoStrayJumpIsOwn(b, Compile(a, fs));
    case And(a, b) =>
      var f2 := BeginShortCircuit(OP_AND, Compile(a, fs));
      CompileAnd(a, b, fs, Compile(a, fs), f2, Compile(b, f2));
      ShortCircuitCompiles(OP_AND, a, b, fs);
      NoStrayJumpIsOwn(a, fs);
      NoStrayJumpIsOwn(b, f2);
    case Or(a, b) =>
      var f2 := BeginShortCircuit(OP_OR, Compile(a, fs));
      CompileOr(a, b, fs, Compile(a, fs), f2, Compile(b, f2));
      ShortCircuitCompiles(OP_OR, a, b, fs);
      NoStrayJumpIsOwn(a, fs);
      NoStrayJumpIsOwn(b, f2);
    case Cond(c, a, b) =>
      var f1 := BeginCond(Compile(c, fs));
      var f3 := MiddleCond(Top(f1), Compile(a, f1));
      CompileCond(c, a, b, fs, f1, f3, Compile(b, f3));
      BranchesCompile(c, a, b, fs);
      ConditionIsOwn(c, fs);
      NoStrayJumpIsOwn(c, fs);
      NoStrayJumpIsOwn(a, f1);
      NoStrayJumpIsOwn(b, f3);
  }

  lemma {:induction false} NoStrayJumpInCond(c: Expr, a: Expr, b: Expr, fs: FState, f0: FState, f1: FState, f2: FState,
                                             f3: FState)
    requires f0 == Compile(c, fs) && f1 == BeginCond(f0) && f2 == Compile(a, f1) && f3 == MiddleCond(Top(f1), f2)
    requires NoStrayJump(Cond(c, a, b), fs)
    ensures NoStrayJump(c, fs) && NoStrayJump(a, f1) && NoStrayJump(b, f3) && (c.Local? ==> !EndsInCmp(f0))
  {
    hide Compile, EndsInCmp, BeginCond, MiddleCond;
    if c.Local? { LocalEmitsNothing(c, fs); }
  }

  lemma {:induction false} CondCorrect(step: Stepper<Machine>, ops: Ops, lits: seq<SQObject>, c: Expr, a: Expr, b: Expr,
                                       fs: FState, registers: nat)
    requires Interprets(step, ops, lits) && Ready(Cond(c, a, b), fs, lits, registers)
    ensures Correct(step, ops, Cond(c, a, b), fs, Compile(Cond(c, a, b), fs), registers)
    decreases Cond(c, a, b), 1
  {
    hide Compile, NoStrayJump, BeginCond, MiddleCond, EndCond;
    var f0 := Compile(c, fs);
    var f1 := BeginCond(f0);
    var f2 := Compile(a, f1);
    var f3 := MiddleCond(Top(f1), f2);
    CompileCond(c, a, b, fs, f1, f3, Compile(b, f3));
    NoStrayJumpInCond(c, a, b, fs, f0, f1, f2, f3);
    CondPushes(Cond(c, a, b), c, a, b, fs);
    PartsCorrect(step, ops, lits, Cond(c, a, b), c, a, b, fs, f0, f1, f2, f3, Compile(b, f3),
                 Compile(Cond(c, a, b), fs), registers);
  }

  lemma {:induction false} PartsCorrect(step: Stepper<Machine>, ops: Ops, lits: seq<SQObject>, e: Expr, c: Expr,
                                        a: Expr, b: Expr, fs: FState, f0: FState, f1: FState, f2: FState, f3: FState,
                                        f4: FState, r: FState, registers: nat)
    requires c < e && a < e && b < e && Interprets(step, ops, lits)
    requires WellFormed(c, fs.vlocals) && WellFormed(a, fs.vlocals) && WellFormed(b, fs.vlocals) && Allocated(fs)
    requires f0 == Compile(c, fs) && f1 == BeginCond(f0) && f2 == Compile(a, f1) && f3 == MiddleCond(Top(f1), f2) &&
             f4 == Compile(b, f3)
    requires r == EndCond(|f1.code| - 1, |f3.code| - 1, Top(f1), f4) && Fits(r, lits, registers)
    requires NoStrayJump(c, fs) && NoStrayJump(a, f1) && NoStrayJump(b, f3) && (c.Local? ==> !EndsInCmp(f0))
    requires Pushed(fs, f0, c.Local?) && Pushed(fs, f1, false) && Pushed(f1, f2, a.Local?) && Pushed(fs, f3, false) &&
             Pushed(f3, f4, b.Local?)
    ensures Correct(step, ops, Cond(c, a, b), fs, r, registers)
    decreases e, 0
  {
    hide Compile, Emit, MoveTo, Correct, Interprets, NoStrayJump, EndsInCmp;
    CompileGrows(a, f1);
    CompileGrows(b, f3);
    SubReady(c, fs, f0, r, lits, registers);
    CompileCorrect(step, ops, lits, c, fs, registers);
    StillWellFormed(a, fs.vlocals, f1.vlocals);
    SubReady(a, f1, f2, r, lits, registers);
    CompileCorrect(step, ops, lits, a, f1, registers);
    StillWellFormed(b, fs.vlocals, f3.vlocals);
    SubReady(b, f3, f4, r, lits, registers);
    CompileCorrect(step, ops, lits, b, f3, registers);
    if a.Local? { LocalEmitsNothing(a, f1); }
    if b.Local? { LocalEmitsNothing(b, f3); }
    CondComposes(step, ops, lits, c, a, b, fs, f0, f1, f2, f3, f4, r, registers);
  }

  lemma {:induction false} CondComposes(step: Stepper<Machine>, ops: Ops, lits: seq<SQObject>, c: Expr, a: Expr,
                                        b: Expr, fs: FState, f0: FState, f1: FState, f2: FState, f3: FState, f4: FState,
                                        r: FState, registers: nat)
    requires Interprets(step, ops, lits) && WellFormed(a, fs.vlocals) && WellFormed(b, fs.vlocals)
    requires Correct(step, ops, c, fs, f0, registers) && Correct(step, ops, a, f1, f2, registers) &&
             Correct(step, ops, b, f3, f4, registers)
    requires Pushed(fs, f0, c.Local?) && Pushed(fs, f1, false) && Pushed(f1, f2, a.Local?) && Pushed(fs, f3, false) &&
             Pushed(f3, f4, b.Local?)
    requires f1.stacksize <= registers && f3.stacksize <= registers && (c.Local? ==> !EndsInCmp(f0))
    requires (a.Local? ==> f2.code == f1.code && f2.opt == f1.opt) &&
             (b.Local? ==> f4.code == f3.code && f4.opt == f3.opt)
    requires f1 == BeginCond(f0) && f3 == MiddleCond(Top(f1), f2) &&
             r == EndCond(|f1.code| - 1, |f3.code| - 1, Top(f1), f4)
    ensures Correct(step, ops, Cond(c, a, b), fs, r, registers)
  {
    forall pc0: nat, m: Machine | |m.regs| == registers && Open(fs, pc0, registers)
      ensures Computes(step, ops, Cond(c, a, b), fs, r, pc0, m)
    {
      CondCase(step, ops, lits, c, a, b, fs, f0, f1, f2, f3, f4, r, pc0, m);
    }
  }
}
