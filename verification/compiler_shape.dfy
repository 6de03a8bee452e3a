/** What code generation does to the target stack and to the registers it has allocated. */
module CompilerShape {
  import opened Objects
  import opened Bytecode
  import opened FuncState
  import opened Compiler

  /** An error is final, registers and literals are only added. */
  ghost predicate Grows(fs: FState, fs': FState) {
    (fs.failed ==> fs'.failed) && fs.stacksize <= fs'.stacksize && fs.lits <= fs'.lits
  }

  lemma {:induction false} CompileGrows(e: Expr, fs: FState)
    ensures Grows(fs, Compile(e, fs))
    decreases e, 1
  {
    hide BeginCond, MiddleCond, EndCond, BeginShortCircuit, EndShortCircuit;
    match e
    case Local(p) =>
    case Const(c) =>
    case Binary(op, op3, a, b) =>
      CompileGrows(a, fs);
      CompileGrows(b, Compile(a, fs));
    case Unary(op, a) => CompileGrows(a, fs);
    case Index(a, b) =>
      CompileGrows(a, fs);
      CompileGrows(b, Compile(a, fs));
    case And(a, b) => ShortCircuitGrows(e, OP_AND, a, b, fs);
    case Or(a, b) => ShortCircuitGrows(e, OP_OR, a, b, fs);
    case Cond(c, a, b) => CondGrows(e, c, a, b, fs);
  }

  lemma {:induction false} ShortCircuitGrows(e: Expr, op: Opcode, a: Expr, b: Expr, fs: FState)
    requires a < e && b < e
    ensures var f1 := Compile(a, fs); var f2 := BeginShortCircuit(op, f1);
            Grows(fs, EndShortCircuit(ShortCircuitAt(f1), Top(f2), Compile(b, f2)))
    decreases e, 0
  {
    hide Compile;
    CompileGrows(a, fs);
    CompileGrows(b, BeginShortCircuit(op, Compile(a, fs)));
  }

  lemma {:induction false} CondGrows(e: Expr, c: Expr, a: Expr, b: Expr, fs: FState)
    requires c < e && a < e && b < e
    ensures var f1 := BeginCond(Compile(c, fs)); var f3 := MiddleCond(Top(f1), Compile(a, f1));
            Grows(fs, EndCond(|f1.code| - 1, |f3.code| - 1, Top(f1), Compile(b, f3)))
    decreases e, 0
  {
    hide Compile;
    var f1 := BeginCond(Compile(c, fs));
    CompileGrows(c, fs);
    CompileGrows(a, f1);
    CompileGrows(b, MiddleCond(Top(f1), Compile(a, f1)));
  }

  /** Registers are allocated within the frame, whose size a byte can address. The first is that of `this`. */
  ghost predicate Allocated(fs: FState) {
    !fs.failed && 0 < |fs.vlocals| <= fs.stacksize <= MAX_FUNC_STACKSIZE + 1
  }

  /** One more target: the local itself, or a new temporary on top of the registers. */
  ghost predicate Pushed(fs: FState, fs': FState, bare: bool) {
    && |fs'.targets| == |fs.targets| + 1 && fs'.targets[..|fs.targets|] == fs.targets
    && fs.vlocals != [] && Allocated(fs')
    && if bare then IsLocal(fs.vlocals, Top(fs')) && fs'.vlocals == fs.vlocals
       else Top(fs') == |fs.vlocals| && fs'.vlocals == fs.vlocals + [false]
  }

  lemma PopPushed(fs: FState, fs': FState, bare: bool)
    requires Pushed(fs, fs', bare)
    ensures PopTarget(fs').targets == fs.targets && PopTarget(fs').vlocals == fs.vlocals && Allocated(PopTarget(fs'))
    ensures 0 <= Top(fs') < |fs'.vlocals| <= 256
  {
  }

  lemma PushTargetPushes(fs: FState)
    requires 0 < |fs.vlocals| <= fs.stacksize <= MAX_FUNC_STACKSIZE + 1 && !PushTarget(fs).failed
    ensures Pushed(fs, PushTarget(fs), false)
  {
  }

  lemma BinaryPushes(fs: FState, f1: FState, f2: FState, bare1: bool, bare2: bool)
    requires Pushed(fs, f1, bare1) && Pushed(f1, f2, bare2)
    ensures var g := PopTarget(PopTarget(f2));
            g.targets == fs.targets && g.vlocals == fs.vlocals &&
              (!PushTarget(g).failed ==> Pushed(fs, PushTarget(g), false))
    ensures Top(PopTarget(f2)) == Top(f1)
  {
    PopPushed(f1, f2, bare2);
    assert Pushed(fs, PopTarget(f2), bare1);
    PopPushed(fs, PopTarget(f2), bare1);
    var g := PopTarget(PopTarget(f2));
    if !PushTarget(g).failed { PushTargetPushes(g); }
  }

  lemma BeginShortCircuitPushes(op: Opcode, fs: FState, f1: FState, bare: bool)
    requires Pushed(fs, f1, bare) && !BeginShortCircuit(op, f1).failed
    ensures Pushed(fs, BeginShortCircuit(op, f1), false)
  {
    PopPushed(fs, f1, bare);
    PushTargetPushes(PopTarget(f1));
  }

  lemma BeginCondPushes(fs: FState, f1: FState, bare: bool)
    requires Pushed(fs, f1, bare) && !BeginCond(f1).failed
    ensures Pushed(fs, BeginCond(f1), false)
  {
    PopPushed(fs, f1, bare);
    PushTargetPushes(Emit(PopTarget(f1), Make(OP_JZ, Top(f1), 0, 0, 0)));
  }

  lemma {:induction false} CompilePushes(e: Expr, fs: FState)
    requires WellFormed(e, fs.vlocals) && Allocated(fs) && !Compile(e, fs).failed
    ensures Pushed(fs, Compile(e, fs), e.Local?)
    decreases e, 2
  {
    hide Allocated, Pushed, BeginShortCircuit, EndShortCircuit, BeginCond, MiddleCond, EndCond, EmitBinary, EmitGet,
      EmitUnary,
         CompileConst;
    match e
    case Local(p) => RegisterPushes(p, fs);
    case Const(c) => ConstPushes(c, fs);
    case Binary(op, op3, a, b) =>
      OperandsPush(e, a, b, fs);
      EmitPushes(op, op3, fs, Compile(b, Compile(a, fs)));
    case Unary(op, a) =>
      OperandPushes(e, a, fs, EmitUnary(op, Compile(a, fs)));
    case Index(a, b) =>
      OperandsPush(e, a, b, fs);
      EmitPushes(OP_GET, 0, fs, Compile(b, Compile(a, fs)));
    case And(a, b) => LogicalPushes(e, OP_AND, a, b, fs);
    case Or(a, b) => LogicalPushes(e, OP_OR, a, b, fs);
    case Cond(c, a, b) => ChoicePushes(e, c, a, b, fs);
  }

  lemma {:induction false} LogicalPushes(e: Expr, op: Opcode, a: Expr, b: Expr, fs: FState)
    requires a < e && b < e
    requires WellFormed(a, fs.vlocals) && WellFormed(b, fs.vlocals) && Allocated(fs)
    requires !Compile(b, BeginShortCircuit(op, Compile(a, fs))).failed
    ensures var f1 := Compile(a, fs); var f2 := BeginShortCircuit(op, f1);
            Pushed(fs, EndShortCircuit(ShortCircuitAt(f1), Top(f2), Compile(b, f2)), false)
    decreases e, 1
  {
    hide Compile, Allocated, Pushed, BeginShortCircuit;
    var f1 := Compile(a, fs);
    var f2 := BeginShortCircuit(op, f1);
    ShortCircuitPushes(e, op, a, b, fs);
    EndShortCircuitPushes(ShortCircuitAt(f1), fs, f2, Compile(b, f2), b.Local?);
  }

  lemma {:induction false} ChoicePushes(e: Expr, c: Expr, a: Expr, b: Expr, fs: FState)
    requires c < e && a < e && b < e
    requires WellFormed(c, fs.vlocals) && WellFormed(a, fs.vlocals) && WellFormed(b, fs.vlocals) && Allocated(fs)
    requires var f1 := BeginCond(Compile(c, fs));
             !Compile(b, MiddleCond(Top(f1), Compile(a, f1))).failed
    ensures var f1 := BeginCond(Compile(c, fs)); var f3 := MiddleCond(Top(f1), Compile(a, f1));
            Pushed(fs, EndCond(|f1.code| - 1, |f3.code| - 1, Top(f1), Compile(b, f3)), false)
    decreases e, 1
  {
    hide Compile, Allocated, Pushed, BeginCond, MiddleCond;
    var f1 := BeginCond(Compile(c, fs));
    var f3 := MiddleCond(Top(f1), Compile(a, f1));
    CondPushes(e, c, a, b, fs);
    EndCondPushes(|f1.code| - 1, |f3.code| - 1, fs, f3, Compile(b, f3), b.Local?);
  }

  lemma RegisterPushes(p: int, fs: FState)
    requires IsLocal(fs.vlocals, p) && Allocated(fs)
    ensures Pushed(fs, PushRegister(fs, p), true)
  {
  }

  lemma ConstPushes(c: SQObject, fs: FState)
    requires Allocated(fs) && !CompileConst(c, fs).failed
    ensures Pushed(fs, CompileConst(c, fs), false)
  {
    PushTargetPushes(if NeedsLiteral(c) then AddConstant(fs, c) else fs);
  }

  lemma EmitPushes(op: Opcode, op3: int, fs: FState, f2: FState)
    requires |f2.targets| >= 2
    requires !PushTarget(PopTarget(PopTarget(f2))).failed ==> Pushed(fs, PushTarget(PopTarget(PopTarget(f2))), false)
    ensures !EmitBinary(op, op3, f2).failed ==> Pushed(fs, EmitBinary(op, op3, f2), false)
    ensures !EmitGet(f2).failed ==> Pushed(fs, EmitGet(f2), false)
  {
    hide PushTarget, PopTarget, EmitBinary, EmitGet;
  }

  lemma {:induction false} OperandPushes(e: Expr, a: Expr, fs: FState, f2: FState)
    requires a < e && WellFormed(a, fs.vlocals) && Allocated(fs)
    requires SameTargets(PushTarget(PopTarget(Compile(a, fs))), f2) && !f2.failed
    ensures Pushed(fs, f2, false)
    decreases e, 0
  {
    hide Compile;
    CompilePushes(a, fs);
    PopPushed(fs, Compile(a, fs), a.Local?);
    PushTargetPushes(PopTarget(Compile(a, fs)));
  }

  lemma {:induction false} OperandsPush(e: Expr, a: Expr, b: Expr, fs: FState)
    requires a < e && b < e
    requires WellFormed(a, fs.vlocals) && WellFormed(b, fs.vlocals) && Allocated(fs) &&
             !Compile(b, Compile(a, fs)).failed
    ensures var f1 := Compile(a, fs); var f2 := Compile(b, f1);
            && Pushed(fs, f1, a.Local?) && Pushed(f1, f2, b.Local?)
            && (!PushTarget(PopTarget(PopTarget(f2))).failed ==>
                Pushed(fs, PushTarget(PopTarget(PopTarget(f2))), false))
    decreases e, 0
  {
    hide Compile;
    var f1 := Compile(a, fs);
    CompileGrows(b, f1);
    CompilePushes(a, fs);
    StillWellFormed(b, fs.vlocals, f1.vlocals);
    CompilePushes(b, f1);
    BinaryPushes(fs, f1, Compile(b, f1), a.Local?, b.Local?);
  }

  lemma {:induction false} StillWellFormed(e: Expr, vlocals: seq<bool>, more: seq<bool>)
    requires WellFormed(e, vlocals) && vlocals <= more
    ensures WellFormed(e, more)
  {
    match e
    case Local(p) =>
    case Const(c) =>
    case Binary(op, op3, a, b) => StillWellFormed(a, vlocals, more); StillWellFormed(b, vlocals, more);
    case Unary(op, a) => StillWellFormed(a, vlocals, more);
    case Index(a, b) => StillWellFormed(a, vlocals, more); StillWellFormed(b, vlocals, more);
    case And(a, b) => StillWellFormed(a, vlocals, more); StillWellFormed(b, vlocals, more);
    case Or(a, b) => StillWellFormed(a, vlocals, more); StillWellFormed(b, vlocals, more);
    case Cond(c, a, b) =>
      StillWellFormed(c, vlocals, more); StillWellFormed(a, vlocals, more); StillWellFormed(b, vlocals, more);
  }

  lemma EndShortCircuitPushes(jpos: int, fs: FState, f2: FState, f3: FState, bare: bool)
    requires Pushed(fs, f2, false) && Pushed(f2, f3, bare)
    ensures Pushed(fs, EndShortCircuit(jpos, Top(f2), f3), false)
  {
    PopPushed(f2, f3, bare);
  }

  lemma {:induction false} ShortCircuitPushes(e: Expr, op: Opcode, a: Expr, b: Expr, fs: FState)
    requires a < e && b < e
    requires WellFormed(a, fs.vlocals) && WellFormed(b, fs.vlocals) && Allocated(fs)
    requires !Compile(b, BeginShortCircuit(op, Compile(a, fs))).failed
    ensures var f1 := Compile(a, fs); var f2 := BeginShortCircuit(op, f1);
            Pushed(fs, f1, a.Local?) && Pushed(fs, f2, false) && Pushed(f2, Compile(b, f2), b.Local?)
    decreases e, 0
  {
    hide Compile;
    var f1 := Compile(a, fs);
    var f2 := BeginShortCircuit(op, f1);
    CompileGrows(b, f2);
    CompilePushes(a, fs);
    BeginShortCircuitPushes(op, fs, f1, a.Local?);
    StillWellFormed(b, fs.vlocals, f2.vlocals);
    CompilePushes(b, f2);
  }

  lemma EndCondPushes(jz: int, jmp: int, fs: FState, f3: FState, f4: FState, bare: bool)
    requires Pushed(fs, f3, false) && Pushed(f3, f4, bare)
    ensures Pushed(fs, EndCond(jz, jmp, Top(f3), f4), false)
  {
    PopPushed(f3, f4, bare);
  }

  lemma MiddleCondPushes(fs: FState, f1: FState, f2: FState, bare: bool)
    requires Pushed(fs, f1, false) && Pushed(f1, f2, bare)
    ensures Pushed(fs, MiddleCond(Top(f1), f2), false) && Top(MiddleCond(Top(f1), f2)) == Top(f1)
  {
    PopPushed(f1, f2, bare);
  }

  lemma {:induction false} CondPushes(e: Expr, c: Expr, a: Expr, b: Expr, fs: FState)
    requires c < e && a < e && b < e
    requires WellFormed(c, fs.vlocals) && WellFormed(a, fs.vlocals) && WellFormed(b, fs.vlocals) && Allocated(fs)
    requires var f1 := BeginCond(Compile(c, fs));
             !Compile(b, MiddleCond(Top(f1), Compile(a, f1))).failed
    ensures var f0 := Compile(c, fs); var f1 := BeginCond(f0); var f2 := Compile(a, f1);
            var f3 := MiddleCond(Top(f1), f2);
            && Pushed(fs, f0, c.Local?) && Pushed(fs, f1, false) && Pushed(f1, f2, a.Local?)
            && Pushed(fs, f3, false) && Top(f3) == Top(f1) && Pushed(f3, Compile(b, f3), b.Local?)
    decreases e, 0
  {
    hide Compile, BeginCond, MiddleCond;
    var f0 := Compile(c, fs);
    var f1 := BeginCond(f0);
    var f2 := Compile(a, f1);
    var f3 := MiddleCond(Top(f1), f2);
    CompileGrows(a, f1);
    CompileGrows(b, f3);
    CompilePushes(c, fs);
    BeginCondPushes(fs, f0, c.Local?);
    StillWellFormed(a, fs.vlocals, f1.vlocals);
    CompilePushes(a, f1);
    MiddleCondPushes(fs, f1, f2, a.Local?);
    StillWellFormed(b, fs.vlocals, f3.vlocals);
    CompilePushes(b, f3);
  }
}
