/** The function state that the compiler updates in place. */
module FunctionState {
  import opened Objects
  import opened Bytecode
  import opened FuncState
  import opened Compiler

  class SQFuncState {
    var instructions: seq<Instr>
    var optimization: bool
    var vlocals: seq<bool>
    var targetstack: seq<int>
    var literals: seq<SQObject>
    var stacksize: nat
    var failed: bool

    constructor (locals: nat)
      ensures State() == FState([], true, seq(locals, _ => true), [], [], locals, false)
    {
      instructions, optimization, vlocals := [], true, seq(locals, _ => true);
      targetstack, literals, stacksize, failed := [], [], locals, false;
    }

    function State(): FState
      reads this
    {
      FState(instructions, optimization, vlocals, targetstack, literals, stacksize, failed)
    }

    /** Rewrites the previous instruction where a pair can be fused, and appends i otherwise. */
    method AddInstruction(i: Instr)
      modifies this
      ensures State() == Emit(old(State()), i)
    {
      var size, j := |instructions|, i;
      if size > 0 && optimization {
        var pi := instructions[size - 1];
        var fused := Option<Instr>.None;
        if i.op == OP_JZ {
          if pi.op == OP_CMP && pi.arg1 < 0xFF {
            fused := Some(pi.(op := OP_JCMP, arg0 := U8(pi.arg1), arg1 := i.arg1));
          }
        } else if i.op == OP_SET || i.op == OP_NEWSLOT {
          if i.arg0 == i.arg3 { j := i.(arg0 := 0xFF); }
        } else if i.op == OP_SETOUTER {
          if i.arg0 == i.arg2 { j := i.(arg0 := 0xFF); }
        } else if i.op == OP_GET {
          if pi.op == OP_LOAD && pi.arg0 == i.arg2 && !IsLocal(vlocals, pi.arg0) {
            fused := Some(pi.(op := OP_GETK, arg0 := i.arg0, arg2 := U8(i.arg1)));
          }
        } else if i.op == OP_PREPCALL {
          if pi.op == OP_LOAD && pi.arg0 == i.arg1 && !IsLocal(vlocals, pi.arg0) {
            fused := Some(pi.(op := OP_PREPCALLK, arg0 := i.arg0, arg2 := i.arg2, arg3 := i.arg3));
          }
        } else if i.op == OP_APPENDARRAY {
          var aat := -1;
          if pi.op == OP_LOAD { aat := AAT_LITERAL; }
          else if pi.op == OP_LOADINT { aat := AAT_INT; }
          else if pi.op == OP_LOADBOOL { aat := AAT_BOOL; }
          else if pi.op == OP_LOADFLOAT { aat := AAT_FLOAT; }
          if aat != -1 && pi.arg0 == i.arg1 && !IsLocal(vlocals, pi.arg0) {
            fused := Some(pi.(op := OP_APPENDARRAY, arg0 := i.arg0, arg2 := aat, arg3 := MAX_FUNC_STACKSIZE));
          }
        } else if i.op == OP_MOVE {
          if IsRetargetable(pi.op) && pi.arg0 == i.arg1 {
            instructions := instructions[size - 1 := pi.(arg0 := i.arg0)];
            optimization := false;
            assert instructions == Overwritten(old(instructions), pi.(arg0 := i.arg0));
            return;
          }
          if pi.op == OP_MOVE {
            fused := Some(pi.(op := OP_DMOVE, arg2 := i.arg0, arg3 := U8(i.arg1)));
          }
        } else if i.op == OP_LOAD {
          if pi.op == OP_LOAD && i.arg1 < 256 {
            fused := Some(pi.(op := OP_DLOAD, arg2 := i.arg0, arg3 := U8(i.arg1)));
          }
        } else if i.op == OP_EQ || i.op == OP_NE {
          if pi.op == OP_LOAD && pi.arg0 == i.arg1 && !IsLocal(vlocals, pi.arg0) {
            fused := Some(pi.(op := i.op, arg0 := i.arg0, arg2 := i.arg2, arg3 := MAX_FUNC_STACKSIZE));
          }
        } else if i.op == OP_LOADNULLS {
          if pi.op == OP_LOADNULLS && pi.arg0 + pi.arg1 == i.arg0 {
            fused := Some(pi.(arg1 := pi.arg1 + 1));
          }
        }
        assert fused == Fuse(vlocals, pi, i);
        if fused.Some? {
          instructions := instructions[size - 1 := fused.value];
          assert instructions == Overwritten(old(instructions), fused.value);
          return;
        }
      }
      optimization := true;
      instructions := instructions + [j];
    }

    method SetInstructionParam(pos: int, val: int)
      requires 0 <= pos < |instructions|
      modifies this
      ensures State() == SetArg1(old(State()), pos, val)
    {
      instructions := instructions[pos := instructions[pos].(arg1 := val)];
    }

    method SnoozeOpt()
      modifies this
      ensures State() == Snooze(old(State()))
    {
      optimization := false;
    }

    method GetCurrentPos() returns (pos: int)
      ensures pos == |instructions| - 1
    {
      pos := |instructions| - 1;
    }

    /** The place of a literal, which is added if it is new. */
    method GetConstant(cons: SQObject) returns (k: nat)
      modifies this
      ensures State() == AddConstant(old(State()), cons)
      ensures k == LiteralIndex(literals, cons) && k < |literals| && literals[k] == cons
    {
      k := LiteralIndex(literals, cons);
      if k == |literals| {
        literals := literals + [cons];
        AppendedLiteral(old(literals), cons);
        if |literals| > MAX_LITERALS { failed := true; }
      }
    }

    method AllocStackPosition() returns (npos: nat)
      modifies this
      ensures State() == AllocStackPos(old(State())) && npos == |old(vlocals)|
    {
      npos := |vlocals|;
      vlocals := vlocals + [false];
      if |vlocals| > stacksize {
        if stacksize > MAX_FUNC_STACKSIZE { failed := true; }
        stacksize := |vlocals|;
      }
    }

    method PushNewTarget() returns (n: nat)
      modifies this
      ensures State() == PushTarget(old(State())) && n == Top(State())
    {
      n := AllocStackPosition();
      targetstack := targetstack + [n];
    }

    method PushLocal(n: int)
      modifies this
      ensures State() == PushRegister(old(State()), n)
    {
      targetstack := targetstack + [n];
    }

    method TopTarget() returns (n: int)
      requires targetstack != []
      ensures n == Top(State())
    {
      n := targetstack[|targetstack| - 1];
    }

    method Pop() returns (npos: int)
      requires targetstack != []
      modifies this
      ensures State() == PopTarget(old(State())) && npos == Top(old(State()))
    {
      npos := targetstack[|targetstack| - 1];
      if !IsLocal(vlocals, npos) && vlocals != [] {
        vlocals := vlocals[..|vlocals| - 1];
      }
      targetstack := targetstack[..|targetstack| - 1];
    }
  }

  lemma {:induction false} AppendedLiteral(lits: seq<SQObject>, c: SQObject)
    requires LiteralIndex(lits, c) == |lits|
    ensures LiteralIndex(lits + [c], c) == |lits|
  {
    if lits != [] {
      assert (lits + [c])[1..] == lits[1..] + [c];
      AppendedLiteral(lits[1..], c);
    }
  }
}

/** The recursive descent of the compiler over a parsed expression: it only ever talks to the function state. */
module ExpressionCompiler {
  import opened Objects
  import opened Bytecode
  import opened FuncState
  import opened Compiler
  import opened FunctionState

  class SQCompiler {
    const fs: SQFuncState

    constructor (fs: SQFuncState)
      ensures this.fs == fs
    {
      this.fs := fs;
    }

    /** Emits the code of e and leaves its target on the target stack. */
    method Expression(e: Expr)
      modifies fs
      ensures fs.State() == Compile(e, old(fs.State()))
      decreases e, 1
    {
      hide CompileConst, EmitBinary, EmitGet, EmitUnary, BeginShortCircuit, EndShortCircuit, BeginCond, MiddleCond,
        EndCond;
      match e {
        case Local(p) => fs.PushLocal(p);
        case Const(c) => LoadConst(c);
        case Binary(op, op3, a, b) =>
          Expression(a);
          Expression(b);
          EmitBinaryOp(op, op3);
        case Unary(op, a) =>
          Expression(a);
          UnaryOp(op);
        case Index(a, b) =>
          Expression(a);
          Expression(b);
          EmitGetOp();
        case And(a, b) => LogicalExpression(e, OP_AND, a, b);
        case Or(a, b) => LogicalExpression(e, OP_OR, a, b);
        case Cond(c, a, b) => ConditionalExpression(e, c, a, b);
      }
    }

    /** LogicalAndExp and LogicalOrExp. */
    method LogicalExpression(ghost e: Expr, op: Opcode, a: Expr, b: Expr)
      requires a < e && b < e && (op == OP_AND || op == OP_OR)
      modifies fs
      ensures var f1 := Compile(a, old(fs.State())); var f2 := BeginShortCircuit(op, f1);
              fs.State() == EndShortCircuit(ShortCircuitAt(f1), Top(f2), Compile(b, f2))
      decreases e, 0
    {
      hide Compile, BeginShortCircuit, EndShortCircuit;
      Expression(a);
      var trg, jpos := BeginShortCircuitOp(op);
      CodeNeverShrinks(b, fs.State());
      Expression(b);
      EndShortCircuitOp(trg, jpos);
    }

    /** The conditional operator. */
    method ConditionalExpression(ghost e: Expr, c: Expr, a: Expr, b: Expr)
      requires c < e && a < e && b < e
      modifies fs
      ensures var f1 := BeginCond(Compile(c, old(fs.State()))); var f3 := MiddleCond(Top(f1), Compile(a, f1));
              fs.State() == EndCond(|f1.code| - 1, |f3.code| - 1, Top(f1), Compile(b, f3))
      decreases e, 0
    {
      hide Compile, BeginCond, MiddleCond, EndCond, PushTarget, PopTarget;
      Expression(c);
      var trg, jzpos := BeginCondOp();
      CodeNeverShrinks(a, fs.State());
      Expression(a);
      var jmppos := MiddleCondOp(trg);
      CodeNeverShrinks(b, fs.State());
      Expression(b);
      EndCondOp(jzpos, jmppos, trg);
    }

    method LoadConst(c: SQObject)
      modifies fs
      ensures fs.State() == CompileConst(c, old(fs.State()))
    {
      var k := 0;
      if NeedsLiteral(c) { k := fs.GetConstant(c); }
      var target := fs.PushNewTarget();
      match c {
        case Integer(n) =>
          if n <= INT_MAX && n > INT_MIN {
            fs.AddInstruction(Make(OP_LOADINT, target, n, 0, 0));
          } else {
            fs.AddInstruction(Make(OP_LOAD, target, k, 0, 0));
          }
        case Bool(b) => fs.AddInstruction(Make(OP_LOADBOOL, target, if b then 1 else 0, 0, 0));
        case Float(bits) => fs.AddInstruction(Make(OP_LOADFLOAT, target, bits, 0, 0));
        case Null => fs.AddInstruction(Make(OP_LOADNULLS, target, 1, 0, 0));
        case _ => fs.AddInstruction(Make(OP_LOAD, target, k, 0, 0));
      }
    }

    method EmitBinaryOp(op: Opcode, op3: int)
      requires |fs.targetstack| >= 2
      modifies fs
      ensures fs.State() == EmitBinary(op, op3, old(fs.State()))
    {
      var op1 := fs.Pop();
      var op2 := fs.Pop();
      var target := fs.PushNewTarget();
      fs.AddInstruction(Make(op, target, op1, op2, op3));
    }

    method EmitGetOp()
      requires |fs.targetstack| >= 2
      modifies fs
      ensures fs.State() == EmitGet(old(fs.State()))
    {
      var key := fs.Pop();
      var src := fs.Pop();
      var target := fs.PushNewTarget();
      fs.AddInstruction(Make(OP_GET, target, src, key, 0));
    }

    method UnaryOp(op: Opcode)
      requires |fs.targetstack| >= 1
      modifies fs
      ensures fs.State() == EmitUnary(op, old(fs.State()))
    {
      var src := fs.Pop();
      var target := fs.PushNewTarget();
      fs.AddInstruction(Make(op, target, src, 0, 0));
    }

    method MoveToTarget(trg: int)
      requires |fs.targetstack| >= 1
      modifies fs
      ensures fs.State() == MoveTo(old(fs.State()), trg)
    {
      var src := fs.Pop();
      if trg != src { fs.AddInstruction(Make(OP_MOVE, trg, src, 0, 0)); }
    }

    method BeginShortCircuitOp(op: Opcode) returns (trg: int, jpos: int)
      requires |fs.targetstack| >= 1 && (op == OP_AND || op == OP_OR)
      modifies fs
      ensures fs.State() == BeginShortCircuit(op, old(fs.State()))
      ensures trg == Top(fs.State()) && jpos == ShortCircuitAt(old(fs.State())) && |fs.instructions| > jpos
    {
      var first := fs.Pop();
      trg := fs.PushNewTarget();
      fs.AddInstruction(Make(op, trg, 0, first, 0));
      jpos := fs.GetCurrentPos();
      if trg != first { fs.AddInstruction(Make(OP_MOVE, trg, first, 0, 0)); }
    }

    method EndShortCircuitOp(trg: int, jpos: int)
      requires |fs.targetstack| >= 1 && 0 <= jpos < |fs.instructions|
      modifies fs
      ensures fs.State() == EndShortCircuit(jpos, trg, old(fs.State()))
    {
      fs.SnoozeOpt();
      MoveToTarget(trg);
      fs.SnoozeOpt();
      var pos := fs.GetCurrentPos();
      fs.SetInstructionParam(jpos, pos - jpos);
    }

    method BeginCondOp() returns (trg: int, jzpos: int)
      requires |fs.targetstack| >= 1
      modifies fs
      ensures fs.State() == BeginCond(old(fs.State()))
      ensures trg == Top(fs.State()) && jzpos == |fs.instructions| - 1 >= 0
    {
      var test := fs.Pop();
      fs.AddInstruction(Make(OP_JZ, test, 0, 0, 0));
      jzpos := fs.GetCurrentPos();
      trg := fs.PushNewTarget();
    }

    method MiddleCondOp(trg: int) returns (jmppos: int)
      requires |fs.targetstack| >= 1
      modifies fs
      ensures fs.State() == MiddleCond(trg, old(fs.State()))
      ensures |old(fs.instructions)| <= |fs.instructions| == jmppos + 1
    {
      MoveToTarget(trg);
      fs.AddInstruction(Make(OP_JMP, 0, 0, 0, 0));
      jmppos := fs.GetCurrentPos();
    }

    method EndCondOp(jzpos: int, jmppos: int, trg: int)
      requires |fs.targetstack| >= 1 && 0 <= jzpos < |fs.instructions| && 0 <= jmppos < |fs.instructions|
      modifies fs
      ensures fs.State() == EndCond(jzpos, jmppos, trg, old(fs.State()))
    {
      MoveToTarget(trg);
      var pos := fs.GetCurrentPos();
      fs.SetInstructionParam(jmppos, pos - jmppos);
      fs.SetInstructionParam(jzpos, jmppos - jzpos);
      fs.SnoozeOpt();
    }
  }

  lemma BinaryNeverShrinks(op: Opcode, op3: int, fs: FState)
    requires |fs.targets| >= 2
    ensures |EmitBinary(op, op3, fs).code| >= |fs.code| && |EmitGet(fs).code| >= |fs.code|
  {
  }

  lemma UnaryNeverShrinks(op: Opcode, fs: FState)
    requires |fs.targets| >= 1
    ensures |EmitUnary(op, fs).code| >= |fs.code|
  {
  }

  lemma ShortCircuitNeverShrinks(op: Opcode, fs: FState, jpos: int, trg: int)
    requires |fs.targets| >= 1
    ensures |BeginShortCircuit(op, fs).code| >= |fs.code| && |EndShortCircuit(jpos, trg, fs).code| >= |fs.code|
  {
  }

  lemma CondNeverShrinks(fs: FState, jz: int, jmp: int, trg: int)
    requires |fs.targets| >= 1
    ensures |BeginCond(fs).code| >= |fs.code| && |MiddleCond(trg, fs).code| >= |fs.code| &&
            |EndCond(jz, jmp, trg, fs).code| >= |fs.code|
  {
  }

  lemma ConstNeverShrinks(c: SQObject, fs: FState)
    ensures |CompileConst(c, fs).code| >= |fs.code|
  {
  }

  /** Patched positions stay inside the code. */
  lemma {:induction false} CodeNeverShrinks(e: Expr, fs: FState)
    ensures |Compile(e, fs).code| >= |fs.code|
    decreases e, 1
  {
    hide CompileConst, EmitBinary, EmitGet, EmitUnary, BeginShortCircuit, EndShortCircuit, BeginCond, MiddleCond,
      EndCond;
    match e
    case Local(p) =>
    case Const(c) => ConstNeverShrinks(c, fs);
    case Binary(op, op3, a, b) =>
      CodeNeverShrinks(a, fs);
      CodeNeverShrinks(b, Compile(a, fs));
      BinaryNeverShrinks(op, op3, Compile(b, Compile(a, fs)));
    case Unary(op, a) =>
      CodeNeverShrinks(a, fs);
      UnaryNeverShrinks(op, Compile(a, fs));
    case Index(a, b) =>
      CodeNeverShrinks(a, fs);
      CodeNeverShrinks(b, Compile(a, fs));
      BinaryNeverShrinks(OP_GET, 0, Compile(b, Compile(a, fs)));
    case And(a, b) => OperandsNeverShrink(e, OP_AND, a, b, fs);
    case Or(a, b) => OperandsNeverShrink(e, OP_OR, a, b, fs);
    case Cond(c, a, b) => BranchesNeverShrink(e, c, a, b, fs);
  }

  lemma {:induction false} BranchesNeverShrink(e: Expr, c: Expr, a: Expr, b: Expr, fs: FState)
    requires c < e && a < e && b < e
    ensures var f1 := BeginCond(Compile(c, fs)); var f3 := MiddleCond(Top(f1), Compile(a, f1));
            |EndCond(|f1.code| - 1, |f3.code| - 1, Top(f1), Compile(b, f3)).code| >= |fs.code|
    decreases e, 0
  {
    hide Compile, BeginCond, MiddleCond, EndCond;
    var f0 := Compile(c, fs);
    var f1 := BeginCond(f0);
    var f2 := Compile(a, f1);
    var f3 := MiddleCond(Top(f1), f2);
    CodeNeverShrinks(c, fs);
    CodeNeverShrinks(a, f1);
    CodeNeverShrinks(b, f3);
    CondNeverShrinks(f0, 0, 0, 0);
    CondNeverShrinks(f2, 0, 0, Top(f1));
    CondNeverShrinks(Compile(b, f3), |f1.code| - 1, |f3.code| - 1, Top(f1));
  }

  lemma {:induction false} OperandsNeverShrink(e: Expr, op: Opcode, a: Expr, b: Expr, fs: FState)
    requires a < e && b < e
    ensures var f1 := Compile(a, fs); var f2 := BeginShortCircuit(op, f1);
            |EndShortCircuit(ShortCircuitAt(f1), Top(f2), Compile(b, f2)).code| >= |fs.code|
    decreases e, 0
  {
    hide Compile, BeginShortCircuit, EndShortCircuit;
    var f1 := Compile(a, fs);
    var f2 := BeginShortCircuit(op, f1);
    CodeNeverShrinks(a, fs);
    CodeNeverShrinks(b, f2);
    ShortCircuitNeverShrinks(op, f1, 0, 0);
    ShortCircuitNeverShrinks(op, Compile(b, f2), ShortCircuitAt(f1), Top(f2));
  }
}
