/** When code generation fails: how many registers and literals an expression needs. */
module CompilerLimits {
  import opened Objects
  import opened Bytecode
  import opened FuncState
  import opened Compiler
  import opened CompilerShape
  import opened CompilerProof

  const MAX_REGISTERS := 256
  const MAX_CONSTANTS := 0x7FFF_FFFF

  function Max(a: nat, b: nat): nat {
    if a < b then b else a
  }

  /** An operand that is a bare local stays in its register, every other is left in a temporary. */
  function Temporaries(e: Expr): nat {
    if e.Local? then 0 else 1
  }

  /** The registers that an expression needs on top of those that are taken. */
  function Depth(e: Expr): nat {
    match e
    case Local(_) => 0
    case Const(_) => 1
    case Binary(_, _, a, b) => Max(1, Max(Depth(a), Temporaries(a) + Depth(b)))
    case Unary(_, a) => Max(1, Depth(a))
    case Index(a, b) => Max(1, Max(Depth(a), Temporaries(a) + Depth(b)))
    case And(a, b) => Max(Depth(a), 1 + Depth(b))
    case Or(a, b) => Max(Depth(a), 1 + Depth(b))
    case Cond(c, a, b) => Max(Depth(c), 1 + Max(Depth(a), Depth(b)))
  }

  /** The constants of an expression that are not encoded in an instruction. */
  function Constants(e: Expr): set<SQObject> {
    match e
    case Local(_) => {}
    case Const(c) => if NeedsLiteral(c) then {c} else {}
    case Binary(_, _, a, b) => Constants(a) + Constants(b)
    case Unary(_, a) => Constants(a)
    case Index(a, b) => Constants(a) + Constants(b)
    case And(a, b) => Constants(a) + Constants(b)
    case Or(a, b) => Constants(a) + Constants(b)
    case Cond(c, a, b) => Constants(c) + Constants(a) + Constants(b)
  }

  // ---------- literals ----------

  /** The literals, each once. */
  ghost predicate Holds(lits: seq<SQObject>, all: set<SQObject>) {
    |lits| == |all| && (forall c :: c in all <==> c in lits)
  }

  lemma {:induction false} FoundIfThere(lits: seq<SQObject>, c: SQObject)
    ensures LiteralIndex(lits, c) < |lits| <==> c in lits
  {
    if lits != [] && lits[0] != c { FoundIfThere(lits[1..], c); }
  }

  lemma ConstantIsAdded(fs: FState, c: SQObject, all: set<SQObject>)
    requires Holds(fs.lits, all)
    ensures Holds(AddConstant(fs, c).lits, all + {c})
  {
    FoundIfThere(fs.lits, c);
    if c in all {
      assert all + {c} == all;
    } else {
      assert |all + {c}| == |all| + 1;
    }
  }

  /** Every constant is among the literals once, however often it occurs, and nothing else is added. */
  lemma {:induction false} CompileHolds(e: Expr, fs: FState, all: set<SQObject>)
    requires Holds(fs.lits, all)
    ensures Holds(Compile(e, fs).lits, all + Constants(e))
    decreases e, 1
  {
    hide Compile, Holds, EmitBinary, EmitGet, EmitUnary, BeginShortCircuit, EndShortCircuit, BeginCond, MiddleCond,
         EndCond;
    match e
    case Local(p) =>
      CompileLeaves(p, Null, fs);
      assert all + {} == all;
    case Const(c) =>
      CompileLeaves(0, c, fs);
      ConstantIsAdded(fs, c, all);
      assert all + {} == all;
    case Binary(op, op3, a, b) =>
      CompileBinary(op, op3, a, b, fs);
      PairHolds(e, a, b, fs, Compile(a, fs), all);
    case Unary(op, a) =>
      CompileUnary(op, a, fs);
      CompileHolds(a, fs, all);
    case Index(a, b) =>
      CompileIndex(a, b, fs);
      PairHolds(e, a, b, fs, Compile(a, fs), all);
    case And(a, b) =>
      var f2 := BeginShortCircuit(OP_AND, Compile(a, fs));
      CompileAnd(a, b, fs, Compile(a, fs), f2, Compile(b, f2));
      PairHolds(e, a, b, fs, f2, all);
    case Or(a, b) =>
      var f2 := BeginShortCircuit(OP_OR, Compile(a, fs));
      CompileOr(a, b, fs, Compile(a, fs), f2, Compile(b, f2));
      PairHolds(e, a, b, fs, f2, all);
    case Cond(c, a, b) =>
      var f1 := BeginCond(Compile(c, fs));
      var f3 := MiddleCond(Top(f1), Compile(a, f1));
      CompileCond(c, a, b, fs, f1, f3, Compile(b, f3));
      PairHolds(e, c, a, fs, f1, all);
      CompileHolds(b, f3, all + (Constants(c) + Constants(a)));
      assert all + (Constants(c) + Constants(a)) + Constants(b) == all + Constants(e);
  }

  /** b is compiled after a, in a function state with the literals that a left. */
  lemma {:induction false} PairHolds(e: Expr, a: Expr, b: Expr, fs: FState, f1: FState, all: set<SQObject>)
    requires a < e && b < e && Holds(fs.lits, all) && f1.lits == Compile(a, fs).lits
    ensures Holds(Compile(b, f1).lits, all + (Constants(a) + Constants(b)))
    decreases e, 0
  {
    hide Compile, Holds;
    CompileHolds(a, fs, all);
    CompileHolds(b, f1, all + Constants(a));
    assert all + Constants(a) + Constants(b) == all + (Constants(a) + Constants(b));
  }

  // ---------- registers ----------

  ghost predicate FitsSoFar(fs: FState) {
    Allocated(fs) && |fs.lits| <= MAX_CONSTANTS
  }

  /** r is what is left of fs after something that needed so many registers on top, and failed only for want of them. */
  ghost predicate Needs(fs: FState, depth: nat, r: FState) {
    && (!r.failed <==> |fs.vlocals| + depth <= MAX_REGISTERS && |r.lits| <= MAX_CONSTANTS)
    && (!r.failed ==> r.stacksize == Max(fs.stacksize, |fs.vlocals| + depth))
  }

  /** A further target fails exactly when all registers are taken. */
  lemma PushNeeds(fs: FState)
    requires !fs.failed && |fs.vlocals| <= fs.stacksize <= MAX_REGISTERS && |fs.lits| <= MAX_CONSTANTS
    ensures Needs(fs, 1, PushTarget(fs))
  {
  }

  lemma ConstNeeds(c: SQObject, fs: FState)
    requires FitsSoFar(fs)
    ensures Needs(fs, 1, CompileConst(c, fs))
  {
    hide Emit, LoadOf;
    FoundIfThere(fs.lits, c);
    var f1 := if NeedsLiteral(c) then AddConstant(fs, c) else fs;
    assert SameTargets(PushTarget(f1), CompileConst(c, fs));
    if |f1.lits| <= MAX_CONSTANTS { PushNeeds(f1); }
  }

  /** After both operands, a target for the result is pushed in their place. */
  lemma ResultNeeds(fs: FState, f1: FState, f2: FState, bare1: bool, bare2: bool, depth: nat, r: FState)
    requires FitsSoFar(fs) && Needs(fs, depth, f2) && |f2.targets| >= 2
    requires !f2.failed ==> Pushed(fs, f1, bare1) && Pushed(f1, f2, bare2)
    requires SameTargets(PushTarget(PopTarget(PopTarget(f2))), r)
    ensures Needs(fs, Max(1, depth), r)
  {
    if !f2.failed {
      BinaryPushes(fs, f1, f2, bare1, bare2);
      PushNeeds(PopTarget(PopTarget(f2)));
    }
  }

  /** A value is replaced by a new target, with the jump that depends on it. */
  lemma ReplacedNeeds(fs: FState, f1: FState, bare: bool, depth: nat, r: FState)
    requires FitsSoFar(fs) && Needs(fs, depth, f1) && |f1.targets| >= 1 && (!f1.failed ==> Pushed(fs, f1, bare))
    requires SameTargets(PushTarget(PopTarget(f1)), r)
    ensures Needs(fs, Max(1, depth), r)
  {
    if !f1.failed {
      PopPushed(fs, f1, bare);
      PushNeeds(PopTarget(f1));
    }
  }

  /** g needs its registers on top of what f1, which was made from fs, has left: more of them by `more`. */
  lemma NeedsOnTop(fs: FState, f1: FState, g: FState, depth1: nat, depth2: nat, more: nat)
    requires Needs(fs, depth1, f1) && (!f1.failed ==> |f1.vlocals| == |fs.vlocals| + more && Needs(f1, depth2, g))
    requires f1.failed ==> g.failed
    requires |f1.lits| <= |g.lits|
    ensures Needs(fs, Max(depth1, more + depth2), g)
  {
  }

  /** An expression fits exactly if there are registers for its depth and room for its constants. */
  lemma {:induction false} CompileNeeds(e: Expr, fs: FState)
    requires WellFormed(e, fs.vlocals) && FitsSoFar(fs)
    ensures Needs(fs, Depth(e), Compile(e, fs))
    decreases e, 3
  {
    hide Compile, FitsSoFar, Needs, EmitBinary, EmitGet, EmitUnary;
    match e
    case Local(p) =>
      CompileLeaves(p, Null, fs);
      LocalNeeds(p, fs);
    case Const(c) =>
      CompileLeaves(0, c, fs);
      ConstNeeds(c, fs);
    case Binary(op, op3, a, b) =>
      CompileBinary(op, op3, a, b, fs);
      PairNeeds(e, a, b, fs, EmitBinary(op, op3, Compile(b, Compile(a, fs))));
    case Unary(op, a) =>
      CompileUnary(op, a, fs);
      OperandNeeds(e, a, fs);
      ReplacedNeeds(fs, Compile(a, fs), a.Local?, Depth(a), EmitUnary(op, Compile(a, fs)));
    case Index(a, b) =>
      CompileIndex(a, b, fs);
      PairNeeds(e, a, b, fs, EmitGet(Compile(b, Compile(a, fs))));
    case And(_, _) => BranchingNeeds(e, fs);
    case Or(_, _) => BranchingNeeds(e, fs);
    case Cond(_, _, _) => BranchingNeeds(e, fs);
  }

  lemma {:induction false} BranchingNeeds(e: Expr, fs: FState)
    requires (e.And? || e.Or? || e.Cond?) && WellFormed(e, fs.vlocals) && FitsSoFar(fs)
    ensures Needs(fs, Depth(e), Compile(e, fs))
    decreases e, 2
  {
    hide Compile, FitsSoFar, Needs, BeginShortCircuit, EndShortCircuit, BeginCond, MiddleCond, EndCond;
    match e
    case And(a, b) =>
      var f1 := Compile(a, fs);
      var f2 := BeginShortCircuit(OP_AND, f1);
      CompileAnd(a, b, fs, f1, f2, Compile(b, f2));
      LogicalNeeds(e, a, b, fs, f1, f2, Compile(b, f2), Compile(e, fs));
    case Or(a, b) =>
      var f1 := Compile(a, fs);
      var f2 := BeginShortCircuit(OP_OR, f1);
      CompileOr(a, b, fs, f1, f2, Compile(b, f2));
      LogicalNeeds(e, a, b, fs, f1, f2, Compile(b, f2), Compile(e, fs));
    case Cond(c, a, b) =>
      var f1 := BeginCond(Compile(c, fs));
      var f2 := Compile(a, f1);
      var f3 := MiddleCond(Top(f1), f2);
      CompileCond(c, a, b, fs, f1, f3, Compile(b, f3));
      ChoiceNeeds(e, c, a, b, fs, Compile(c, fs), f1, f2, f3, Compile(b, f3), Compile(e, fs));
  }

  lemma LocalNeeds(p: int, fs: FState)
    requires FitsSoFar(fs)
    ensures Needs(fs, 0, PushRegister(fs, p))
  {
  }

  lemma {:induction false} OperandNeeds(e: Expr, a: Expr, fs: FState)
    requires a < e && WellFormed(a, fs.vlocals) && FitsSoFar(fs)
    ensures var f1 := Compile(a, fs);
            && Needs(fs, Depth(a), f1)
            && (!f1.failed ==>
              Pushed(fs, f1, a.Local?) && FitsSoFar(f1) && |f1.vlocals| == |fs.vlocals| + Temporaries(a))
    decreases e, 0
  {
    CompileNeeds(a, fs);
    OperandPushed(a, fs);
  }

  lemma {:induction false} PairNeeds(e: Expr, a: Expr, b: Expr, fs: FState, r: FState)
    requires a < e && b < e && WellFormed(a, fs.vlocals) && WellFormed(b, fs.vlocals) && FitsSoFar(fs)
    requires SameTargets(PushTarget(PopTarget(PopTarget(Compile(b, Compile(a, fs))))), r)
    ensures Needs(fs, Max(1, Max(Depth(a), Temporaries(a) + Depth(b))), r)
    decreases e, 1
  {
    hide Compile, Needs, PushTarget, PopTarget;
    var f1 := Compile(a, fs);
    var f2 := Compile(b, f1);
    OperandNeeds(e, a, fs);
    CompileGrows(b, f1);
    if !f1.failed {
      StillWellFormed(b, fs.vlocals, f1.vlocals);
      OperandNeeds(e, b, f1);
    }
    NeedsOnTop(fs, f1, f2, Depth(a), Depth(b), Temporaries(a));
    ResultNeeds(fs, f1, f2, a.Local?, b.Local?, Max(Depth(a), Temporaries(a) + Depth(b)), r);
  }

  /** f2 has the new target, f3 the second operand on top of it, r both in one. */
  lemma {:induction false} LogicalNeeds(e: Expr, a: Expr, b: Expr, fs: FState, f1: FState, f2: FState, f3: FState,
                                        r: FState)
    requires a < e && b < e && WellFormed(a, fs.vlocals) && WellFormed(b, fs.vlocals) && FitsSoFar(fs)
    requires f1 == Compile(a, fs) && SameTargets(PushTarget(PopTarget(f1)), f2)
    requires f3 == Compile(b, f2) && SameTargets(PopTarget(f3), r)
    ensures Needs(fs, Max(Depth(a), 1 + Depth(b)), r)
    decreases e, 1
  {
    hide Compile, Needs, Pushed, FitsSoFar, PushTarget, PopTarget, WellFormed, SameTargets;
    OperandNeeds(e, a, fs);
    ReplacedNeeds(fs, f1, a.Local?, Depth(a), f2);
    TargetIsPushed(fs, f1, f2, a.Local?);
    NextNeeds(e, b, fs, f2, Max(1, Depth(a)));
    EndNeeds(fs, f3, r, Max(Max(1, Depth(a)), 1 + Depth(b)));
  }

  /** The code of a branch or of a second operand, on top of one target. */
  lemma {:induction false} NextNeeds(e: Expr, b: Expr, fs: FState, f2: FState, depth: nat)
    requires b < e && WellFormed(b, fs.vlocals) && Needs(fs, depth, f2)
    requires !f2.failed ==> Pushed(fs, f2, false) && FitsSoFar(f2) && |f2.vlocals| == |fs.vlocals| + 1
    ensures Needs(fs, Max(depth, 1 + Depth(b)), Compile(b, f2))
    ensures var f3 := Compile(b, f2); !f3.failed ==> !f2.failed && Pushed(f2, f3, b.Local?) && FitsSoFar(f3)
    decreases e, 0
  {
    hide Compile, Needs, FitsSoFar;
    CompileGrows(b, f2);
    if !f2.failed {
      StillWellFormed(b, fs.vlocals, f2.vlocals);
      CompileNeeds(b, f2);
      OperandPushed(b, f2);
    }
    NeedsOnTop(fs, f2, Compile(b, f2), depth, Depth(b), 1);
  }

  lemma {:induction false} OperandPushed(a: Expr, fs: FState)
    requires WellFormed(a, fs.vlocals) && FitsSoFar(fs) && Needs(fs, Depth(a), Compile(a, fs))
    ensures var f1 := Compile(a, fs);
            !f1.failed ==> Pushed(fs, f1, a.Local?) && FitsSoFar(f1) && |f1.vlocals| == |fs.vlocals| + Temporaries(a)
  {
    hide Compile;
    if !Compile(a, fs).failed { CompilePushes(a, fs); }
  }

  /** Popping what is left of a branch needs no register. */
  lemma EndNeeds(fs: FState, f3: FState, r: FState, depth: nat)
    requires Needs(fs, depth, f3) && f3.targets != [] && SameTargets(PopTarget(f3), r)
    ensures Needs(fs, depth, r)
  {
  }

  lemma TargetIsPushed(fs: FState, f1: FState, f2: FState, bare: bool)
    requires FitsSoFar(fs) && |f1.targets| >= 1 && (!f1.failed ==> Pushed(fs, f1, bare) && FitsSoFar(f1))
    requires SameTargets(PushTarget(PopTarget(f1)), f2)
    ensures f1.failed ==> f2.failed
    ensures f2.lits == f1.lits
    ensures !f2.failed ==> Pushed(fs, f2, false) && FitsSoFar(f2) && |f2.vlocals| == |fs.vlocals| + 1
  {
    if !f2.failed {
      PopPushed(fs, f1, bare);
      PushTargetPushes(PopTarget(f1));
    }
  }

  /** f1 has the new target, f2 the first branch on top of it, f3 both in one, f4 the second branch, r all in one. */
  lemma {:induction false} ChoiceNeeds(e: Expr, c: Expr, a: Expr, b: Expr, fs: FState, f0: FState, f1: FState,
                                       f2: FState, f3: FState, f4: FState, r: FState)
    requires c < e && a < e && b < e && FitsSoFar(fs)
    requires WellFormed(c, fs.vlocals) && WellFormed(a, fs.vlocals) && WellFormed(b, fs.vlocals)
    requires f0 == Compile(c, fs) && SameTargets(PushTarget(PopTarget(f0)), f1)
    requires f2 == Compile(a, f1) && SameTargets(PopTarget(f2), f3)
    requires f4 == Compile(b, f3) && SameTargets(PopTarget(f4), r)
    ensures Needs(fs, Max(Depth(c), 1 + Max(Depth(a), Depth(b))), r)
    decreases e, 1
  {
    hide Compile, Needs, Pushed, FitsSoFar, PushTarget, PopTarget, WellFormed, SameTargets;
    OperandNeeds(e, c, fs);
    ReplacedNeeds(fs, f0, c.Local?, Depth(c), f1);
    TargetIsPushed(fs, f0, f1, c.Local?);
    NextNeeds(e, a, fs, f1, Max(1, Depth(c)));
    var depth := Max(Max(1, Depth(c)), 1 + Depth(a));
    EndNeeds(fs, f2, f3, depth);
    BranchIsPopped(fs, f1, f2, f3, a.Local?);
    NextNeeds(e, b, fs, f3, depth);
    EndNeeds(fs, f4, r, Max(depth, 1 + Depth(b)));
  }

  lemma BranchIsPopped(fs: FState, f1: FState, f2: FState, f3: FState, bare: bool)
    requires |f2.targets| >= 1 && SameTargets(PopTarget(f2), f3)
    requires !f2.failed ==> Pushed(fs, f1, false) && Pushed(f1, f2, bare) && FitsSoFar(f2)
    ensures f3.failed == f2.failed && f3.lits == f2.lits
    ensures !f3.failed ==> Pushed(fs, f3, false) && FitsSoFar(f3) && |f3.vlocals| == |fs.vlocals| + 1
  {
    if !f3.failed { PopPushed(f1, f2, bare); }
  }

  // ---------- which expressions compile ----------

  /** An expression in a function with n locals needs no more registers and literals than there are. */
  predicate FitsFrame(e: Expr, n: nat) {
    n + Depth(e) <= MAX_REGISTERS && |Constants(e)| <= MAX_CONSTANTS
  }

  /** Code generation fails exactly for an expression that does not fit, and the code needs exactly its depth. */
  lemma {:induction false} CompilesIff(e: Expr, n: nat)
    requires 0 < n <= MAX_REGISTERS && WellFormed(e, Start(n).vlocals)
    ensures var r := Compile(e, Start(n));
            (!r.failed <==> FitsFrame(e, n)) && (!r.failed ==> r.stacksize == n + Depth(e))
  {
    hide Compile, WellFormed;
    assert Holds(Start(n).lits, {});
    CompileHolds(e, Start(n), {});
    assert {} + Constants(e) == Constants(e);
    CompileNeeds(e, Start(n));
  }

  /** The operand of a load is a 32-bit integer: an inline one, or the place of a literal. */
  lemma LoadFits(lits: seq<SQObject>, t: int, c: SQObject)
    requires |lits| <= MAX_CONSTANTS && !c.Float?
    ensures -0x8000_0000 <= LoadOf(lits, t, c).arg1 <= 0x7FFF_FFFF
  {
  }
}
