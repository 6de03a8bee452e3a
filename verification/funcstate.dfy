/** The function state of the compiler: the code emitted so far, its peephole optimiser and the target stack. */
module FuncState {
  import opened Objects
  import opened Bytecode

  function U8(x: int): int {
    x % 256
  }

  /** SQInstruction: every operand but arg1 is cut to a byte. */
  function Make(op: Opcode, arg0: int, arg1: int, arg2: int, arg3: int): Instr {
    Instr(op, U8(arg0), arg1, U8(arg2), U8(arg3))
  }

  /**
   * vlocals has an entry for each allocated register, true for a named local and false for a temporary.
   * failed is set where the compiler raises an error and gives up.
   */
  datatype FState = FState(
    code: seq<Instr>, opt: bool, vlocals: seq<bool>, targets: seq<int>,
    lits: seq<SQObject>, stacksize: nat, failed: bool)

  predicate IsLocal(vlocals: seq<bool>, r: int) {
    0 <= r < |vlocals| && vlocals[r]
  }

  predicate IsRetargetable(op: Opcode) {
    IsLoad(op) || op == OP_GET || op == OP_ADD || op == OP_SUB || op == OP_MUL || op == OP_DIV || op == OP_BITW
  }

  function AppendSource(op: Opcode): int {
    if op == OP_LOAD then AAT_LITERAL
    else if op == OP_LOADINT then AAT_INT
    else if op == OP_LOADBOOL then AAT_BOOL
    else if op == OP_LOADFLOAT then AAT_FLOAT
    else -1
  }

  /** pi loads the temporary r. */
  predicate LoadsTemporary(vlocals: seq<bool>, pi: Instr, r: int) {
    pi.op == OP_LOAD && pi.arg0 == r && !IsLocal(vlocals, pi.arg0)
  }

  /** What the optimiser writes over the previous instruction pi instead of adding i, if it does. */
  function Fuse(vlocals: seq<bool>, pi: Instr, i: Instr): Option<Instr> {
    if i.op == OP_JZ then
      if pi.op == OP_CMP && pi.arg1 < 0xFF then Some(Instr(OP_JCMP, U8(pi.arg1), i.arg1, pi.arg2, pi.arg3)) else None
    else if i.op == OP_GET then
      if LoadsTemporary(vlocals, pi, i.arg2) then Some(Instr(OP_GETK, i.arg0, pi.arg1, U8(i.arg1), pi.arg3)) else None
    else if i.op == OP_PREPCALL then
      if LoadsTemporary(vlocals, pi, i.arg1) then Some(Instr(OP_PREPCALLK, i.arg0, pi.arg1, i.arg2, i.arg3)) else None
    else if i.op == OP_APPENDARRAY then
      if AppendSource(pi.op) != -1 && pi.arg0 == i.arg1 && !IsLocal(vlocals, pi.arg0) then
        Some(Instr(OP_APPENDARRAY, i.arg0, pi.arg1, AppendSource(pi.op), MAX_FUNC_STACKSIZE))
      else None
    else if i.op == OP_MOVE then
      if IsRetargetable(pi.op) && pi.arg0 == i.arg1 then Some(pi.(arg0 := i.arg0))
      else if pi.op == OP_MOVE then Some(Instr(OP_DMOVE, pi.arg0, pi.arg1, i.arg0, U8(i.arg1)))
      else None
    else if i.op == OP_LOAD then
      if pi.op == OP_LOAD && i.arg1 < 256 then Some(Instr(OP_DLOAD, pi.arg0, pi.arg1, i.arg0, U8(i.arg1))) else None
    else if i.op == OP_EQ || i.op == OP_NE then
      if LoadsTemporary(vlocals, pi, i.arg1) then Some(Instr(i.op, i.arg0, pi.arg1, i.arg2, MAX_FUNC_STACKSIZE))
        else None
    else if i.op == OP_LOADNULLS then
      if pi.op == OP_LOADNULLS && pi.arg0 + pi.arg1 == i.arg0 then Some(pi.(arg1 := pi.arg1 + 1)) else None
    else None
  }

  /** An assignment whose target already holds the value need not copy it. */
  function Untargeted(i: Instr): Instr {
    if (i.op == OP_SET || i.op == OP_NEWSLOT) && i.arg0 == i.arg3 then i.(arg0 := 0xFF)
    else if i.op == OP_SETOUTER && i.arg0 == i.arg2 then i.(arg0 := 0xFF)
    else i
  }

  /** The instruction the optimiser looks at: none at the start of the code or while it snoozes. */
  function Previous(fs: FState): Option<Instr> {
    if |fs.code| > 0 && fs.opt then Some(fs.code[|fs.code| - 1]) else None
  }

  function FusedWith(fs: FState, i: Instr): Option<Instr> {
    match Previous(fs)
    case None => None
    case Some(pi) => Fuse(fs.vlocals, pi, i)
  }

  function Overwritten(code: seq<Instr>, f: Instr): seq<Instr>
    requires |code| > 0
  {
    code[..|code| - 1] + [f]
  }

  /** Emitting code changes nothing but the code and the state of the optimiser. */
  predicate SameTargets(fs: FState, g: FState) {
    g.vlocals == fs.vlocals && g.targets == fs.targets && g.lits == fs.lits && g.stacksize == fs.stacksize &&
      g.failed == fs.failed
  }

  function Emit(fs: FState, i: Instr): (r: FState)
    ensures SameTargets(fs, r)
  {
    match FusedWith(fs, i)
    case Some(f) =>
      fs.(code := Overwritten(fs.code, f), opt := !(i.op == OP_MOVE && f.op != OP_DMOVE))
    case None =>
      fs.(code := fs.code + [if Previous(fs).Some? then Untargeted(i) else i], opt := true)
  }

  // ---------- the peephole optimiser preserves meaning ----------

  /** The registers an instruction the compiler emits reads and writes. */
  function Reads(i: Instr): set<int> {
    if IsBinary(i.op) || i.op == OP_EQ || i.op == OP_NE || i.op == OP_GET || i.op == OP_PREPCALL then {i.arg1, i.arg2}
    else if IsUnary(i.op) || i.op == OP_MOVE then {i.arg1}
    else if i.op == OP_SET || i.op == OP_NEWSLOT then {i.arg1, i.arg2, i.arg3}
    else if i.op == OP_SETOUTER then {i.arg2}
    else if i.op == OP_APPENDARRAY then {i.arg0, i.arg1}
    else {}
  }

  function Writes(i: Instr): set<int> {
    if i.op == OP_APPENDARRAY then {}
    else if i.op == OP_PREPCALL then {i.arg0, i.arg3}
    else if (i.op == OP_SET || i.op == OP_NEWSLOT || i.op == OP_SETOUTER) && i.arg0 == 0xFF then {}
    else {i.arg0}
  }

  /** The straight instructions the compiler emits, with the operands it gives them. */
  predicate Disciplined(vlocals: seq<bool>, i: Instr, registers: int) {
    && !IsJump(i.op) && (i.op != OP_DLOAD && i.op != OP_DMOVE && i.op != OP_GETK && i.op != OP_PREPCALLK)
    && (0 <= i.arg0 < registers || ((i.op == OP_SET || i.op == OP_NEWSLOT || i.op == OP_SETOUTER) && i.arg0 == 0xFF))
    && (i.op == OP_MOVE ==> 0 <= i.arg1 < 256)
    && (i.op == OP_LOAD ==> 0 <= i.arg1)
    && (i.op == OP_CMP ==> 0 <= i.arg1)
    && (i.op == OP_GET ==> 0 <= i.arg1 < 256 && (i.arg1 != i.arg2 || IsLocal(vlocals, i.arg2)))
    && (i.op == OP_PREPCALL ==> i.arg1 != i.arg2 || IsLocal(vlocals, i.arg1))
    && (i.op == OP_APPENDARRAY ==> i.arg2 == AAT_STACK && (i.arg0 != i.arg1 || IsLocal(vlocals, i.arg1)))
    && (i.op == OP_EQ || i.op == OP_NE ==> i.arg3 == 0 && (i.arg1 != i.arg2 || IsLocal(vlocals, i.arg1)))
    && (i.op == OP_LOADNULLS ==> i.arg1 == 1)
  }

  ghost predicate Agree(m: Machine, n: Machine, except: set<int>) {
    && m.heap == n.heap && |m.regs| == |n.regs|
    && forall r :: 0 <= r < |m.regs| && r !in except ==> m.regs[r] == n.regs[r]
  }

  /** Both fail, or both succeed and agree except on some registers. */
  ghost predicate SameBut(a: Option<Machine>, b: Option<Machine>, except: set<int>) {
    match a
    case None => b.None?
    case Some(m) => b.Some? && Agree(m, b.value, except)
  }

  /** The temporary whose write is fused away when i is emitted. */
  function Lost(fs: FState, i: Instr): set<int> {
    if FusedWith(fs, i).None? || (FusedWith(fs, i).value.op == OP_DMOVE || FusedWith(fs, i).value.op == OP_DLOAD ||
                                  FusedWith(fs, i).value.op == OP_LOADNULLS) then {}
    else {Previous(fs).value.arg0} - Writes(i)
  }

  function Steps(ops: Ops, lits: seq<SQObject>, i: Instr, o: Option<Machine>): Option<Machine> {
    match o
    case None => None
    case Some(m) => Step(ops, lits, i, m)
  }

  lemma FusedCompare(ops: Ops, lits: seq<SQObject>, vlocals: seq<bool>, pi: Instr, i: Instr, f: Instr, m: Machine)
    requires Fuse(vlocals, pi, i) == Some(f) && Disciplined(vlocals, i, |m.regs|)
    requires 0 <= pi.arg0 < |m.regs|
    requires i.op == OP_EQ || i.op == OP_NE
    ensures SameBut(Steps(ops, lits, i, Step(ops, lits, pi, m)), Step(ops, lits, f, m), {pi.arg0} - Writes(i))
  {
    var m1 := Put(m, pi.arg0, Lit(lits, pi.arg1));
    assert Step(ops, lits, pi, m) == Some(m1);
    assert Reg(m1, i.arg2) == Reg(m, i.arg2) && Reg(m1, i.arg1) == Lit(lits, pi.arg1);
  }

  lemma FusedGet(ops: Ops, lits: seq<SQObject>, vlocals: seq<bool>, pi: Instr, i: Instr, f: Instr, m: Machine)
    requires Fuse(vlocals, pi, i) == Some(f) && Disciplined(vlocals, i, |m.regs|)
    requires 0 <= pi.arg0 < |m.regs|
    requires i.op == OP_GET
    ensures SameBut(Steps(ops, lits, i, Step(ops, lits, pi, m)), Step(ops, lits, f, m), {pi.arg0} - Writes(i))
  {
    var m1 := Put(m, pi.arg0, Lit(lits, pi.arg1));
    var got := ops.get(m.heap, i.arg1 == 0, Reg(m, i.arg1), Lit(lits, pi.arg1));
    assert Step(ops, lits, pi, m) == Some(m1);
    assert Step(ops, lits, i, m1) == PutResult(m1, i.arg0, got);
    assert Step(ops, lits, f, m) == PutResult(m, i.arg0, got);
    if got.Some? { PutTwice(m, pi.arg0, Lit(lits, pi.arg1), i.arg0, got.value); }
  }

  lemma PutTwice(m: Machine, a: int, x: SQObject, b: int, y: SQObject)
    ensures Agree(Put(Put(m, a, x), b, y), Put(m, b, y), {a} - {b})
  {
  }

  lemma FusedPrepCall(ops: Ops, lits: seq<SQObject>, vlocals: seq<bool>, pi: Instr, i: Instr, f: Instr, m: Machine)
    requires Fuse(vlocals, pi, i) == Some(f) && Disciplined(vlocals, i, |m.regs|)
    requires 0 <= pi.arg0 < |m.regs|
    requires i.op == OP_PREPCALL
    ensures SameBut(Steps(ops, lits, i, Step(ops, lits, pi, m)), Step(ops, lits, f, m), {pi.arg0} - Writes(i))
  {
    var m1 := Put(m, pi.arg0, Lit(lits, pi.arg1));
    assert Step(ops, lits, pi, m) == Some(m1);
    assert Reg(m1, i.arg2) == Reg(m, i.arg2);
  }

  lemma FusedAppend(ops: Ops, lits: seq<SQObject>, vlocals: seq<bool>, pi: Instr, i: Instr, f: Instr, m: Machine)
    requires Fuse(vlocals, pi, i) == Some(f) && Disciplined(vlocals, i, |m.regs|)
    requires 0 <= pi.arg0 < |m.regs|
    requires i.op == OP_APPENDARRAY
    ensures SameBut(Steps(ops, lits, i, Step(ops, lits, pi, m)), Step(ops, lits, f, m), {pi.arg0} - Writes(i))
  {
    var m1 := Put(m, pi.arg0, AppendedValue(lits, f, m));
    assert Step(ops, lits, pi, m) == Some(m1);
    assert Reg(m1, i.arg0) == Reg(m, i.arg0);
  }

  lemma FusedRetarget(ops: Ops, lits: seq<SQObject>, vlocals: seq<bool>, pi: Instr, i: Instr, f: Instr, m: Machine)
    requires Fuse(vlocals, pi, i) == Some(f) && Disciplined(vlocals, i, |m.regs|)
    requires 0 <= pi.arg0 < |m.regs|
    requires i.op == OP_MOVE && pi.op != OP_MOVE
    ensures SameBut(Steps(ops, lits, i, Step(ops, lits, pi, m)), Step(ops, lits, f, m), {pi.arg0} - Writes(i))
  {
    match Step(ops, lits, pi, m)
    case None => assert Step(ops, lits, f, m).None?;
    case Some(m1) => assert Step(ops, lits, f, m) == Some(Put(m, f.arg0, Reg(m1, pi.arg0)));
  }

  lemma FusedPair(ops: Ops, lits: seq<SQObject>, vlocals: seq<bool>, pi: Instr, i: Instr, f: Instr, m: Machine)
    requires Fuse(vlocals, pi, i) == Some(f) && Disciplined(vlocals, i, |m.regs|)
    requires 0 <= pi.arg0 < |m.regs|
    requires (i.op == OP_MOVE && pi.op == OP_MOVE) || i.op == OP_LOAD
    ensures SameBut(Steps(ops, lits, i, Step(ops, lits, pi, m)), Step(ops, lits, f, m), {})
  {
  }

  lemma FusedNulls(ops: Ops, lits: seq<SQObject>, vlocals: seq<bool>, pi: Instr, i: Instr, f: Instr, m: Machine)
    requires Fuse(vlocals, pi, i) == Some(f) && Disciplined(vlocals, i, |m.regs|)
    requires 0 <= pi.arg0 < |m.regs|
    requires i.op == OP_LOADNULLS && pi.arg1 >= 1
    ensures SameBut(Steps(ops, lits, i, Step(ops, lits, pi, m)), Step(ops, lits, f, m), {})
  {
    assert PutNulls(PutNulls(m, pi.arg0, pi.arg1), i.arg0, 1).regs == PutNulls(m, pi.arg0, pi.arg1 + 1).regs;
  }

  ghost predicate OperandsOk(code: seq<Instr>) {
    forall k :: 0 <= k < |code| ==>
      (code[k].op == OP_LOADNULLS ==> code[k].arg1 >= 1) && (code[k].op == OP_CMP ==> code[k].arg1 >= 0)
  }

  /** Every target but the mark 0xFF of an assignment is a register of the frame. A jump need not have a target. */
  ghost predicate InFrame(code: seq<Instr>, registers: int) {
    forall k :: 0 <= k < |code| ==>
      0 <= code[k].arg0 &&
      ((code[k].op != OP_SET && code[k].op != OP_NEWSLOT && code[k].op != OP_SETOUTER && !IsJump(code[k].op)) ==>
       code[k].arg0 < registers)
  }

  lemma FusedStep(ops: Ops, lits: seq<SQObject>, fs: FState, i: Instr, f: Instr, m: Machine)
    requires FusedWith(fs, i) == Some(f)
    requires Disciplined(fs.vlocals, i, |m.regs|) && OperandsOk(fs.code) && InFrame(fs.code, |m.regs|)
    ensures SameBut(Steps(ops, lits, i, Step(ops, lits, Previous(fs).value, m)), Step(ops, lits, f, m), Lost(fs, i))
  {
    var pi := Previous(fs).value;
    if i.op == OP_EQ || i.op == OP_NE {
      FusedCompare(ops, lits, fs.vlocals, pi, i, f, m);
    } else if i.op == OP_GET {
      FusedGet(ops, lits, fs.vlocals, pi, i, f, m);
    } else if i.op == OP_PREPCALL {
      FusedPrepCall(ops, lits, fs.vlocals, pi, i, f, m);
    } else if i.op == OP_APPENDARRAY {
      FusedAppend(ops, lits, fs.vlocals, pi, i, f, m);
    } else if i.op == OP_LOADNULLS {
      FusedNulls(ops, lits, fs.vlocals, pi, i, f, m);
    } else if i.op == OP_LOAD || pi.op == OP_MOVE {
      FusedPair(ops, lits, fs.vlocals, pi, i, f, m);
    } else {
      FusedRetarget(ops, lits, fs.vlocals, pi, i, f, m);
    }
  }

  lemma FusedSteps(ops: Ops, lits: seq<SQObject>, fs: FState, i: Instr, f: Instr, registers: nat, o: Option<Machine>)
    requires FusedWith(fs, i) == Some(f) && (o.Some? ==> |o.value.regs| == registers)
    requires Disciplined(fs.vlocals, i, registers) && OperandsOk(fs.code) && InFrame(fs.code, registers)
    ensures SameBut(Steps(ops, lits, i, Steps(ops, lits, Previous(fs).value, o)), Steps(ops, lits, f, o), Lost(fs, i))
  {
    if o.Some? { FusedStep(ops, lits, fs, i, f, o.value); }
  }

  /**
   * The code from pc0 on can be looked at alone: nothing emitted later changes what is before pc0, its jumps stay
   * inside it, and while the optimiser is awake no jump lands at the end of the code.
   */
  ghost predicate Segment(fs: FState, pc0: int) {
    && 0 <= pc0 <= |fs.code|
    && (pc0 == 0 || IsJump(fs.code[pc0 - 1].op))
    && JumpsWithin(fs.code, pc0, |fs.code|)
    && (fs.opt ==> JumpsWithin(fs.code, pc0, |fs.code| - 1))
    && OperandsOk(fs.code)
  }

  lemma FusedShape(vlocals: seq<bool>, pi: Instr, i: Instr, registers: int)
    requires Fuse(vlocals, pi, i).Some? && Disciplined(vlocals, i, registers)
    ensures var f := Fuse(vlocals, pi, i).value;
            && !IsJump(pi.op) && !IsJump(f.op) && (f.op != OP_SET && f.op != OP_NEWSLOT && f.op != OP_SETOUTER)
            && (f.arg0 == i.arg0 || f.arg0 == pi.arg0)
            && f.op != OP_CMP && (f.op == OP_LOADNULLS ==> pi.op == OP_LOADNULLS && f.arg1 == pi.arg1 + 1)
            && (f.arg0 == pi.arg0 && f.arg0 != i.arg0 ==> (pi.op != OP_SET && pi.op != OP_NEWSLOT &&
                                                           pi.op != OP_SETOUTER))
            && (i.op != OP_SET && i.op != OP_NEWSLOT && i.op != OP_SETOUTER)
  {
  }

  /** Replacing the last instruction by another one that is not a jump. */
  lemma OverwriteKeepsSegment(fs: FState, f: Instr, opt: bool, pc0: nat)
    requires Segment(fs, pc0) && fs.opt && |fs.code| > 0 && !IsJump(f.op) && !IsJump(fs.code[|fs.code| - 1].op)
    requires f.op != OP_CMP && (f.op == OP_LOADNULLS ==> f.arg1 >= 1)
    ensures var fs' := fs.(code := Overwritten(fs.code, f), opt := opt);
            Segment(fs', pc0) && fs'.code[..pc0] == fs.code[..pc0]
  {
    var fs' := fs.(code := Overwritten(fs.code, f), opt := opt);
    assert pc0 < |fs.code|;
    assert forall k :: 0 <= k < |fs.code| - 1 ==> fs'.code[k] == fs.code[k];
  }

  lemma PushKeepsSegment(fs: FState, i: Instr, pc0: nat)
    requires Segment(fs, pc0) && (IsJump(i.op) ==> i.arg1 == 0) && (i.op == OP_LOADNULLS ==> i.arg1 >= 1) &&
             (i.op == OP_CMP ==> i.arg1 >= 0)
    ensures var fs' := fs.(code := fs.code + [i], opt := true);
            (!IsJump(i.op) ==> Segment(fs', pc0)) && (IsJump(i.op) ==> Segment(fs', |fs'.code|)) &&
              fs'.code[..pc0] == fs.code[..pc0]
  {
    var fs' := fs.(code := fs.code + [i], opt := true);
    assert forall k :: 0 <= k < |fs.code| ==> fs'.code[k] == fs.code[k];
  }

  lemma EmitFusedKeepsSegment(fs: FState, i: Instr, f: Instr, pc0: nat, registers: int)
    requires Segment(fs, pc0) && Disciplined(fs.vlocals, i, registers) && FusedWith(fs, i) == Some(f) &&
             InFrame(fs.code, registers)
    ensures var fs' := Emit(fs, i);
            Segment(fs', pc0) && fs'.code[..pc0] == fs.code[..pc0] && InFrame(fs'.code, registers)
  {
    FusedShape(fs.vlocals, Previous(fs).value, i, registers);
    OverwriteKeepsSegment(fs, f, Emit(fs, i).opt, pc0);
  }

  lemma EmitKeepsSegment(fs: FState, i: Instr, pc0: nat, registers: int)
    requires Segment(fs, pc0) && Disciplined(fs.vlocals, i, registers) && InFrame(fs.code, registers)
    ensures var fs' := Emit(fs, i);
            Segment(fs', pc0) && fs'.code[..pc0] == fs.code[..pc0] && InFrame(fs'.code, registers)
  {
    if FusedWith(fs, i).Some? {
      EmitFusedKeepsSegment(fs, i, FusedWith(fs, i).value, pc0, registers);
    } else {
      PushKeepsSegment(fs, if Previous(fs).Some? then Untargeted(i) else i, pc0);
    }
  }

  lemma UntargetedStep(ops: Ops, lits: seq<SQObject>, i: Instr, m: Machine)
    requires 0 <= i.arg0
    ensures Step(ops, lits, Untargeted(i), m) == Step(ops, lits, i, m)
  {
    assert forall n: Machine :: n.regs == m.regs && 0 <= i.arg0 < |m.regs| ==>
           n.regs[i.arg0 := m.regs[i.arg0]] == n.regs;
  }

  lemma {:induction false} OverwrittenRuns<M(!new)>(step: Stepper<M>, code: seq<Instr>, f: Instr, pc0: nat, m: M)
    requires SkipsByArg1(step)
    requires pc0 < |code| && JumpsWithin(code, pc0, |code| - 1) && !IsJump(code[|code| - 1].op) && !IsJump(f.op)
    ensures var before := Run(step, code[..|code| - 1], pc0, m);
            && Run(step, code, pc0, m) == After(step, code[|code| - 1], before)
            && Run(step, Overwritten(code, f), pc0, m) == After(step, f, before)
  {
    var c, pi := code[..|code| - 1], code[|code| - 1];
    assert code == c + [pi];
    RunSnoc(step, c, pi, pc0, m);
    RunSnoc(step, c, f, pc0, m);
  }

  lemma AfterSteps(step: Stepper<Machine>, ops: Ops, lits: seq<SQObject>, i: Instr, o: Option<Machine>)
    requires Interprets(step, ops, lits) && !IsJump(i.op)
    ensures After(step, i, o) == Steps(ops, lits, i, o)
  {
    if o.Some? { var _ := Exec(ops, lits, i, o.value); }
  }

  lemma UntargetedSteps(ops: Ops, lits: seq<SQObject>, i: Instr, o: Option<Machine>)
    requires 0 <= i.arg0
    ensures Steps(ops, lits, Untargeted(i), o) == Steps(ops, lits, i, o)
  {
    if o.Some? { UntargetedStep(ops, lits, i, o.value); }
  }

  lemma {:induction false} PushedRuns(step: Stepper<Machine>, ops: Ops, lits: seq<SQObject>, c: seq<Instr>, i: Instr,
                                      pc0: nat, m: Machine)
    requires Interprets(step, ops, lits)
    requires pc0 <= |c| && JumpsWithin(c, pc0, |c|) && !IsJump(i.op) && 0 <= i.arg0
    ensures Run(step, c + [i], pc0, m) == Steps(ops, lits, i, Run(step, c, pc0, m))
    ensures Run(step, c + [Untargeted(i)], pc0, m) == Steps(ops, lits, i, Run(step, c, pc0, m))
  {
    var o := Run(step, c, pc0, m);
    RunSnoc(step, c, i, pc0, m);
    RunSnoc(step, c, Untargeted(i), pc0, m);
    AfterSteps(step, ops, lits, i, o);
    AfterSteps(step, ops, lits, Untargeted(i), o);
    UntargetedSteps(ops, lits, i, o);
  }

  /** A fused pair lies in the segment that is being emitted. */
  lemma FusedIsInside(fs: FState, i: Instr, f: Instr, pc0: nat, registers: int)
    requires Segment(fs, pc0) && Disciplined(fs.vlocals, i, registers) && FusedWith(fs, i) == Some(f)
    ensures fs.opt && pc0 < |fs.code| && Previous(fs) == Some(fs.code[|fs.code| - 1])
    ensures JumpsWithin(fs.code, pc0, |fs.code| - 1) && !IsJump(fs.code[|fs.code| - 1].op) && !IsJump(f.op)
    ensures Emit(fs, i).code == Overwritten(fs.code, f)
  {
    FusedShape(fs.vlocals, fs.code[|fs.code| - 1], i, registers);
  }

  /** The fused instruction f and the pair it stands for run from the same state. */
  lemma FusedPrefixRuns(step: Stepper<Machine>, ops: Ops, lits: seq<SQObject>, fs: FState, i: Instr, f: Instr,
                                 pc0: nat, m: Machine) returns (before: Option<Machine>)
    requires Interprets(step, ops, lits)
    requires Segment(fs, pc0) && Disciplined(fs.vlocals, i, |m.regs|) && FusedWith(fs, i) == Some(f)
    ensures Run(step, fs.code, pc0, m) == Steps(ops, lits, Previous(fs).value, before)
    ensures Run(step, Emit(fs, i).code, pc0, m) == Steps(ops, lits, f, before)
    ensures before.Some? ==> |before.value.regs| == |m.regs|
  {
    FusedIsInside(fs, i, f, pc0, |m.regs|);
    OverwrittenRuns(step, fs.code, f, pc0, m);
    var c := fs.code[..|fs.code| - 1];
    RunKeepsSize(step, ops, lits, c, pc0, m);
    before := Run(step, c, pc0, m);
    AfterSteps(step, ops, lits, Previous(fs).value, before);
    AfterSteps(step, ops, lits, f, before);
  }

  /** Emitting a straight instruction has the effect of executing it, but for the temporary it may lose. */
  lemma {:induction false} EmitRuns(step: Stepper<Machine>, ops: Ops, lits: seq<SQObject>, fs: FState, i: Instr,
                                    pc0: nat, m: Machine)
    requires Interprets(step, ops, lits)
    requires Segment(fs, pc0) && InFrame(fs.code, |m.regs|) && Disciplined(fs.vlocals, i, |m.regs|)
    ensures SameBut(Steps(ops, lits, i, Run(step, fs.code, pc0, m)), Run(step, Emit(fs, i).code, pc0, m), Lost(fs, i))
  {
    if FusedWith(fs, i).Some? {
      var f := FusedWith(fs, i).value;
      var before := FusedPrefixRuns(step, ops, lits, fs, i, f, pc0, m);
      FusedSteps(ops, lits, fs, i, f, |m.regs|, before);
    } else {
      PushedRuns(step, ops, lits, fs.code, i, pc0, m);
      SameAsItself(Steps(ops, lits, i, Run(step, fs.code, pc0, m)), Lost(fs, i));
    }
  }

  lemma SameAsItself(o: Option<Machine>, lost: set<int>)
    ensures SameBut(o, o, lost)
  {
  }

  lemma {:induction false} RunKeepsSize(step: Stepper<Machine>, ops: Ops, lits: seq<SQObject>, code: seq<Instr>,
                                                 pc: nat, m: Machine)
    requires Interprets(step, ops, lits)
    ensures var r := Run(step, code, pc, m); r.Some? ==> |r.value.regs| == |m.regs|
    decreases |code| - pc
  {
    if pc < |code| {
      ExecKeepsSize(ops, lits, code[pc], m);
      match step(code[pc], m)
      case None =>
      case Some((m1, skipped)) => RunKeepsSize(step, ops, lits, code, pc + 1 + skipped, m1);
    }
  }

  lemma ExecKeepsSize(ops: Ops, lits: seq<SQObject>, i: Instr, m: Machine)
    ensures var r := Exec(ops, lits, i, m); r.Some? ==> |r.value.0.regs| == |m.regs|
  {
  }

  // ---------- the optimised code of a whole list of straight instructions ----------

  function EmitAll(fs: FState, list: seq<Instr>): FState
    decreases |list|
  {
    if list == [] then fs else EmitAll(Emit(fs, list[0]), list[1..])
  }

  function StepAll(ops: Ops, lits: seq<SQObject>, list: seq<Instr>, o: Option<Machine>): Option<Machine> {
    if list == [] then o else StepAll(ops, lits, list[1..], Steps(ops, lits, list[0], o))
  }

  function StaleStep(fs: FState, i: Instr, stale: set<int>): set<int> {
    (stale - Writes(i)) + Lost(fs, i)
  }

  /** The registers whose last write was fused away. */
  function StaleAfter(fs: FState, list: seq<Instr>, stale: set<int>): set<int>
    decreases |list|
  {
    if list == [] then stale else StaleAfter(Emit(fs, list[0]), list[1..], StaleStep(fs, list[0], stale))
  }

  /** No instruction reads a register whose last write was fused away. */
  predicate NoStaleReads(fs: FState, list: seq<Instr>, stale: set<int>)
    decreases |list|
  {
    list == [] || (Reads(list[0]) !! stale && NoStaleReads(Emit(fs, list[0]), list[1..], StaleStep(fs, list[0], stale)))
  }

  lemma SameReads(m: Machine, n: Machine, stale: set<int>, i: Instr)
    requires Agree(m, n, stale) && Reads(i) !! stale
    ensures forall r :: r in Reads(i) ==> Reg(m, r) == Reg(n, r)
  {
    forall r | r in Reads(i) ensures Reg(m, r) == Reg(n, r) {
      assert r !in stale;
    }
  }

  lemma SamePut(m: Machine, n: Machine, stale: set<int>, r: int, v: SQObject)
    requires Agree(m, n, stale)
    ensures Agree(Put(m, r, v), Put(n, r, v), stale - {r})
  {
  }

  /** An instruction that reads no stale register has the same effect on both machines. */
  lemma StepFrame(ops: Ops, lits: seq<SQObject>, vlocals: seq<bool>, i: Instr, m: Machine, n: Machine, stale: set<int>)
    requires Agree(m, n, stale) && Reads(i) !! stale && Disciplined(vlocals, i, |m.regs|)
    ensures SameBut(Step(ops, lits, i, m), Step(ops, lits, i, n), stale - Writes(i))
  {
    SameReads(m, n, stale, i);
    if i.op == OP_PREPCALL {
      PrepCallFrame(ops, lits, i, m, n, stale);
    } else if i.op == OP_SET || i.op == OP_NEWSLOT || i.op == OP_SETOUTER {
      StoreFrame(ops, lits, i, m, n, stale);
    } else if IsValue(i.op) {
      assert Writes(i) == {i.arg0};
      ValueFrame(ops, lits, vlocals, i, m, n, stale);
    }
  }

  lemma PrepCallFrame(ops: Ops, lits: seq<SQObject>, i: Instr, m: Machine, n: Machine, stale: set<int>)
    requires Agree(m, n, stale) && i.op == OP_PREPCALL && Reg(m, i.arg1) == Reg(n, i.arg1) &&
             Reg(m, i.arg2) == Reg(n, i.arg2)
    ensures SameBut(Step(ops, lits, i, m), Step(ops, lits, i, n), stale - Writes(i))
  {
    var v := Reg(m, i.arg2);
    SamePut(m, n, stale, i.arg3, v);
    var got := ops.get(m.heap, i.arg2 == 0, v, Reg(m, i.arg1));
    if got.Some? {
      SamePut(Put(m, i.arg3, v), Put(n, i.arg3, v), stale - {i.arg3}, i.arg0, got.value);
      assert stale - {i.arg3} - {i.arg0} == stale - Writes(i);
    }
  }

  lemma StoreFrame(ops: Ops, lits: seq<SQObject>, i: Instr, m: Machine, n: Machine, stale: set<int>)
    requires Agree(m, n, stale) && (i.op == OP_SET || i.op == OP_NEWSLOT || i.op == OP_SETOUTER)
    requires forall r :: r in Reads(i) ==> Reg(m, r) == Reg(n, r)
    ensures SameBut(Step(ops, lits, i, m), Step(ops, lits, i, n), stale - Writes(i))
  {
    var v := Reg(m, if i.op == OP_SETOUTER then i.arg2 else i.arg3);
    forall h ensures Agree(KeptCopy(i, m.(heap := h), v), KeptCopy(i, n.(heap := h), v), stale - Writes(i)) {
      SamePut(m.(heap := h), n.(heap := h), stale, i.arg0, v);
    }
  }

  lemma ValueFrame(ops: Ops, lits: seq<SQObject>, vlocals: seq<bool>, i: Instr, m: Machine, n: Machine, stale: set<int>)
    requires Agree(m, n, stale) && Disciplined(vlocals, i, |m.regs|) && IsValue(i.op)
    requires forall r :: r in Reads(i) ==> Reg(m, r) == Reg(n, r)
    ensures SameBut(Step(ops, lits, i, m), Step(ops, lits, i, n), stale - {i.arg0})
  {
    var v := ComputedValue(ops, lits, i, m);
    assert v == ComputedValue(ops, lits, i, n);
    if v.Some? { SamePut(m, n, stale, i.arg0, v.value); }
  }

  /**
   * The list built by the optimiser and the list itself fail together, and otherwise leave the same heap and the same
   * registers, except those whose last write was fused away.
   */
  lemma {:induction false} EmitAllRuns(step: Stepper<Machine>, ops: Ops, lits: seq<SQObject>, fs: FState,
                                       list: seq<Instr>, stale: set<int>, pc0: nat, m: Machine, plain: Option<Machine>)
    requires Interprets(step, ops, lits) && Segment(fs, pc0) && InFrame(fs.code, |m.regs|)
    requires forall i :: i in list ==> Disciplined(fs.vlocals, i, |m.regs|)
    requires NoStaleReads(fs, list, stale)
    requires SameBut(plain, Run(step, fs.code, pc0, m), stale)
    ensures SameBut(StepAll(ops, lits, list, plain),
                    Run(step, EmitAll(fs, list).code, pc0, m), StaleAfter(fs, list, stale))
    decreases |list|
  {
    if list != [] {
      var i := list[0];
      var before, after := Run(step, fs.code, pc0, m), Run(step, Emit(fs, i).code, pc0, m);
      EmitRuns(step, ops, lits, fs, i, pc0, m);
      EmitKeepsSegment(fs, i, pc0, |m.regs|);
      if plain.Some? {
        RunKeepsSize(step, ops, lits, fs.code, pc0, m);
        StepFrame(ops, lits, fs.vlocals, i, plain.value, before.value, stale);
      }
      SameButChain(Steps(ops, lits, i, plain), Steps(ops, lits, i, before), after, stale - Writes(i), Lost(fs, i));
      EmitAllRuns(step, ops, lits, Emit(fs, i), list[1..], StaleStep(fs, i, stale), pc0, m, Steps(ops, lits, i, plain));
    }
  }

  lemma SameButChain(a: Option<Machine>, b: Option<Machine>, c: Option<Machine>, s: set<int>, t: set<int>)
    requires SameBut(a, b, s) && SameBut(b, c, t)
    ensures SameBut(a, c, s + t)
  {
  }

  lemma {:induction false} StraightRuns(step: Stepper<Machine>, ops: Ops, lits: seq<SQObject>, list: seq<Instr>,
                                                 pc: nat, m: Machine)
    requires Interprets(step, ops, lits)
    requires pc <= |list| && forall i :: i in list ==> !IsJump(i.op)
    ensures Run(step, list, pc, m) == StepAll(ops, lits, list[pc..], Some(m))
    decreases |list| - pc
  {
    if pc < |list| {
      assert list[pc..][1..] == list[pc + 1..];
      var _ := Exec(ops, lits, list[pc], m);
      match Step(ops, lits, list[pc], m)
      case None => FailedStays(ops, lits, list[pc + 1..]);
      case Some(m1) => StraightRuns(step, ops, lits, list, pc + 1, m1);
    }
  }

  lemma {:induction false} FailedStays(ops: Ops, lits: seq<SQObject>, list: seq<Instr>)
    ensures StepAll(ops, lits, list, None) == None
  {
    if list != [] { FailedStays(ops, lits, list[1..]); }
  }

  function Blank(vlocals: seq<bool>): FState {
    FState([], true, vlocals, [], [], |vlocals|, false)
  }

  /** The peephole optimiser preserves the meaning of every straight-line list that reads no fused-away temporary. */
  lemma {:induction false} PeepholePreservesMeaning(ops: Ops, lits: seq<SQObject>, vlocals: seq<bool>, list: seq<Instr>,
                                                    m: Machine)
    requires forall i :: i in list ==> Disciplined(vlocals, i, |m.regs|)
    requires NoStaleReads(Blank(vlocals), list, {})
    ensures SameBut(Run(Interpreter(ops, lits), list, 0, m),
                    Run(Interpreter(ops, lits), EmitAll(Blank(vlocals), list).code, 0, m),
                    StaleAfter(Blank(vlocals), list, {}))
  {
    var step := Interpreter(ops, lits);
    InterpreterInterprets(ops, lits);
    EmitAllRuns(step, ops, lits, Blank(vlocals), list, {}, 0, m, Some(m));
    StraightRuns(step, ops, lits, list, 0, m);
    assert list[0..] == list;
  }
}
