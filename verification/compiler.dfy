/** Code generation for expressions, and its correctness. */
module Compiler {
  import opened Objects
  import opened Bytecode
  import opened FuncState

  const INT_MAX := 0x7FFF_FFFF
  const INT_MIN := -0x8000_0000
  const MAX_LITERALS := 0x7FFF_FFFF

  datatype Expr =
    | Local(pos: int)
    | Const(c: SQObject)
    | Binary(op: Opcode, op3: int, first: Expr, second: Expr)
    | Unary(op: Opcode, arg: Expr)
    | Index(obj: Expr, key: Expr)
    | And(left: Expr, right: Expr)
    | Or(left: Expr, right: Expr)
    | Cond(cond: Expr, yes: Expr, no: Expr)

  /** The operators a binary or unary expression may have, and the locals it may name. */
  predicate WellFormed(e: Expr, vlocals: seq<bool>) {
    match e
    case Local(p) => IsLocal(vlocals, p)
    case Const(_) => true
    case Binary(op, op3, a, b) =>
      && (if op == OP_EQ || op == OP_NE then op3 == 0 else IsBinary(op) && 0 <= op3 < 256)
      && WellFormed(a, vlocals) && WellFormed(b, vlocals)
    case Unary(op, a) => IsUnary(op) && WellFormed(a, vlocals)
    case Index(a, b) => WellFormed(a, vlocals) && WellFormed(b, vlocals)
    case And(a, b) => WellFormed(a, vlocals) && WellFormed(b, vlocals)
    case Or(a, b) => WellFormed(a, vlocals) && WellFormed(b, vlocals)
    case Cond(c, a, b) => WellFormed(c, vlocals) && WellFormed(a, vlocals) && WellFormed(b, vlocals)
  }

  // ---------- what an expression means ----------

  /** `this` is the first local of every function. */
  predicate IsThis(e: Expr) {
    e == Local(0)
  }

  function Apply2(ops: Ops, h: Heap, op: Opcode, op3: int, a: SQObject, b: SQObject): Option<SQObject> {
    if op == OP_EQ || op == OP_NE then Some(Bool(ops.equal(a, b) == (op == OP_EQ)))
    else ops.binary(op, op3, h, a, b)
  }

  /** Direct evaluation. None is an exception. */
  function Eval(ops: Ops, m: Machine, e: Expr): Option<SQObject> {
    match e
    case Local(p) => Some(Reg(m, p))
    case Const(c) => Some(c)
    case Binary(op, op3, a, b) =>
      (match Eval(ops, m, a)
       case None => None
       case Some(x) =>
         match Eval(ops, m, b)
         case None => None
         case Some(y) => Apply2(ops, m.heap, op, op3, x, y))
    case Unary(op, a) =>
      (match Eval(ops, m, a)
       case None => None
       case Some(x) => ops.unary(op, x))
    case Index(a, b) =>
      (match Eval(ops, m, a)
       case None => None
       case Some(x) =>
         match Eval(ops, m, b)
         case None => None
         case Some(y) => ops.get(m.heap, IsThis(a), x, y))
    case And(a, b) =>
      (match Eval(ops, m, a)
       case None => None
       case Some(x) => if ops.isFalse(x) then Some(x) else Eval(ops, m, b))
    case Or(a, b) =>
      (match Eval(ops, m, a)
       case None => None
       case Some(x) => if ops.isFalse(x) then Eval(ops, m, b) else Some(x))
    case Cond(c, a, b) =>
      (match Eval(ops, m, c)
       case None => None
       case Some(x) => if ops.isFalse(x) then Eval(ops, m, b) else Eval(ops, m, a))
  }

  // ---------- the target stack and the literals ----------

  /** A function with n named locals and no code yet. */
  function Start(n: nat): FState {
    FState([], true, seq(n, _ => true), [], [], n, false)
  }

  function AllocStackPos(fs: FState): FState {
    var n := |fs.vlocals| + 1;
    fs.(vlocals := fs.vlocals + [false],
        stacksize := if n > fs.stacksize then n else fs.stacksize,
        failed := fs.failed || (n > fs.stacksize && fs.stacksize > MAX_FUNC_STACKSIZE))
  }

  /** PushTarget(-1): a new temporary goes on the target stack. */
  function PushTarget(fs: FState): FState {
    AllocStackPos(fs).(targets := fs.targets + [|fs.vlocals|])
  }

  /** PushTarget(n): register n goes on the target stack. */
  function PushRegister(fs: FState, n: int): FState {
    fs.(targets := fs.targets + [n])
  }

  function Top(fs: FState): int
    requires fs.targets != []
  {
    fs.targets[|fs.targets| - 1]
  }

  function PopTarget(fs: FState): FState
    requires fs.targets != []
  {
    var locals := if IsLocal(fs.vlocals, Top(fs)) || fs.vlocals == [] then fs.vlocals
      else fs.vlocals[..|fs.vlocals| - 1];
    fs.(targets := fs.targets[..|fs.targets| - 1], vlocals := locals)
  }

  /** The place of a literal, or the number of literals if it is not there. */
  function LiteralIndex(lits: seq<SQObject>, c: SQObject): (k: nat)
    ensures k <= |lits|
    ensures k < |lits| ==> lits[k] == c
  {
    if lits == [] then 0 else if lits[0] == c then 0 else 1 + LiteralIndex(lits[1..], c)
  }

  function AddConstant(fs: FState, c: SQObject): FState {
    if LiteralIndex(fs.lits, c) < |fs.lits| then fs
    else fs.(lits := fs.lits + [c], failed := fs.failed || |fs.lits| + 1 > MAX_LITERALS)
  }

  // ---------- code generation ----------

  function SetArg1(fs: FState, pos: int, val: int): FState {
    if 0 <= pos < |fs.code| then fs.(code := fs.code[pos := fs.code[pos].(arg1 := val)]) else fs
  }

  function Snooze(fs: FState): FState {
    fs.(opt := false)
  }

  function LoadOf(lits: seq<SQObject>, t: int, c: SQObject): Instr {
    match c
    case Integer(n) =>
      if INT_MIN < n <= INT_MAX then Make(OP_LOADINT, t, n, 0, 0) else Make(OP_LOAD, t, LiteralIndex(lits, c), 0, 0)
    case Bool(b) => Make(OP_LOADBOOL, t, if b then 1 else 0, 0, 0)
    case Float(bits) => Make(OP_LOADFLOAT, t, bits, 0, 0)
    case Null => Make(OP_LOADNULLS, t, 1, 0, 0)
    case _ => Make(OP_LOAD, t, LiteralIndex(lits, c), 0, 0)
  }

  predicate NeedsLiteral(c: SQObject) {
    match c
    case Integer(n) => !(INT_MIN < n <= INT_MAX)
    case String(_) => true
    case Ref(_, _) => true
    case _ => false
  }

  function CompileConst(c: SQObject, fs: FState): (r: FState)
    ensures SameTargets(PushTarget(if NeedsLiteral(c) then AddConstant(fs, c) else fs), r)
  {
    var p := PushTarget(if NeedsLiteral(c) then AddConstant(fs, c) else fs);
    Emit(p, LoadOf(p.lits, Top(p), c))
  }

  /** Pops the operands of op and emits it into a new target. */
  function EmitBinary(op: Opcode, op3: int, fs: FState): (r: FState)
    requires |fs.targets| >= 2
    ensures SameTargets(PushTarget(PopTarget(PopTarget(fs))), r)
  {
    var op1 := Top(fs);
    var f1 := PopTarget(fs);
    var op2 := Top(f1);
    var f2 := PushTarget(PopTarget(f1));
    Emit(f2, Make(op, Top(f2), op1, op2, op3))
  }

  function EmitGet(fs: FState): (r: FState)
    requires |fs.targets| >= 2
    ensures SameTargets(PushTarget(PopTarget(PopTarget(fs))), r)
  {
    var key := Top(fs);
    var f1 := PopTarget(fs);
    var src := Top(f1);
    var f2 := PushTarget(PopTarget(f1));
    Emit(f2, Make(OP_GET, Top(f2), src, key, 0))
  }

  function EmitUnary(op: Opcode, fs: FState): (r: FState)
    requires |fs.targets| >= 1
    ensures SameTargets(PushTarget(PopTarget(fs)), r)
  {
    var src := Top(fs);
    var f1 := PushTarget(PopTarget(fs));
    Emit(f1, Make(op, Top(f1), src, 0, 0))
  }

  /** Pops the target on top and moves it to trg. */
  function MoveTo(fs: FState, trg: int): (r: FState)
    requires |fs.targets| >= 1
    ensures SameTargets(PopTarget(fs), r)
  {
    var src := Top(fs);
    var f1 := PopTarget(fs);
    if trg != src then Emit(f1, Make(OP_MOVE, trg, src, 0, 0)) else f1
  }

  /** && and ||, up to the code of the second operand. */
  function BeginShortCircuit(op: Opcode, fs: FState): (r: FState)
    requires |fs.targets| >= 1
    ensures SameTargets(PushTarget(PopTarget(fs)), r)
  {
    var first := Top(fs);
    var f1 := PushTarget(PopTarget(fs));
    var trg := Top(f1);
    var f2 := Emit(f1, Make(op, trg, 0, first, 0));
    if trg != first then Emit(f2, Make(OP_MOVE, trg, first, 0, 0)) else f2
  }

  function EndShortCircuit(jpos: int, trg: int, fs: FState): (r: FState)
    requires |fs.targets| >= 1
    ensures SameTargets(PopTarget(fs), r)
  {
    var f1 := Snooze(MoveTo(Snooze(fs), trg));
    SetArg1(f1, jpos, |f1.code| - 1 - jpos)
  }

  /** The jump over the first branch of ?: */
  function BeginCond(fs: FState): (r: FState)
    requires |fs.targets| >= 1
    ensures SameTargets(PushTarget(PopTarget(fs)), r)
  {
    PushTarget(Emit(PopTarget(fs), Make(OP_JZ, Top(fs), 0, 0, 0)))
  }

  function MiddleCond(trg: int, fs: FState): (r: FState)
    requires |fs.targets| >= 1
    ensures SameTargets(PopTarget(fs), r)
  {
    Emit(MoveTo(fs, trg), Make(OP_JMP, 0, 0, 0, 0))
  }

  function EndCond(jz: int, jmp: int, trg: int, fs: FState): (r: FState)
    requires |fs.targets| >= 1
    ensures SameTargets(PopTarget(fs), r)
  {
    var f1 := MoveTo(fs, trg);
    Snooze(SetArg1(SetArg1(f1, jmp, |f1.code| - 1 - jmp), jz, jmp - jz))
  }

  /** Where the instruction emitted by BeginShortCircuit jumps from. */
  function ShortCircuitAt(fs: FState): int {
    |fs.code|
  }

  function Compile(e: Expr, fs: FState): (r: FState)
    ensures |r.targets| == |fs.targets| + 1
    decreases e
  {
    match e
    case Local(p) => PushRegister(fs, p)
    case Const(c) => CompileConst(c, fs)
    case Binary(op, op3, a, b) => EmitBinary(op, op3, Compile(b, Compile(a, fs)))
    case Unary(op, a) => EmitUnary(op, Compile(a, fs))
    case Index(a, b) => EmitGet(Compile(b, Compile(a, fs)))
    case And(a, b) =>
      var f1 := Compile(a, fs);
      var f2 := BeginShortCircuit(OP_AND, f1);
      EndShortCircuit(ShortCircuitAt(f1), Top(f2), Compile(b, f2))
    case Or(a, b) =>
      var f1 := Compile(a, fs);
      var f2 := BeginShortCircuit(OP_OR, f1);
      EndShortCircuit(ShortCircuitAt(f1), Top(f2), Compile(b, f2))
    case Cond(c, a, b) =>
      var f1 := BeginCond(Compile(c, fs));
      var trg, jz := Top(f1), |f1.code| - 1;
      var f2 := MiddleCond(trg, Compile(a, f1));
      EndCond(jz, |f2.code| - 1, trg, Compile(b, f2))
  }
}
