/**
 * What the optimiser does to named locals: the rule that retargets an operation does not ask whether its target is
 * one.
 */
module NamedLocals {
  import opened Objects
  import opened Bytecode
  import opened FuncState
  import opened Compiler
  import opened CompilerMain
  import opened CompilerProof

  /** Both fail, or both succeed with the same heap and the same named locals. */
  ghost predicate SameLocals(a: Option<Machine>, b: Option<Machine>, vlocals: seq<bool>) {
    match a
    case None => b.None?
    case Some(m) =>
      && b.Some? && m.heap == b.value.heap && |m.regs| == |b.value.regs|
      && forall r :: IsLocal(vlocals, r) && r < |m.regs| ==> m.regs[r] == b.value.regs[r]
  }

  // ---------- the rule ----------

  /** f is the operation pi with the target of the MOVE i after it. */
  predicate Retargets(vlocals: seq<bool>, pi: Instr, i: Instr, f: Instr) {
    i.op == OP_MOVE && pi.op != OP_MOVE && Fuse(vlocals, pi, i) == Some(f)
  }

  /** The rule is right about the named locals, over all operations, literals and machines. */
  ghost predicate RetargetingAgrees(vlocals: seq<bool>, pi: Instr, i: Instr, f: Instr) {
    forall ops, lits, m: Machine :: |m.regs| == 256 ==>
      SameLocals(Steps(ops, lits, i, Step(ops, lits, pi, m)), Step(ops, lits, f, m), vlocals)
  }

  /** Operations that always give false. */
  function AlwaysFalse(): Ops {
    Ops((op, op3, h, a, b) => Some(Bool(false)), (op, a) => Some(Bool(false)), (a, b) => false, a => false,
        (h, t, a, b) => Some(Bool(false)), (op, h, a, b, c) => None, (h, a, b) => None, (h, k) => Null, (h, k, v) => h)
  }

  /** An operation whose target keeps, if it is not run, a value that it would not get. */
  lemma SomethingIsLost(pi: Instr, heap: Heap) returns (lits: seq<SQObject>, m: Machine, v: SQObject)
    requires IsRetargetable(pi.op) && 0 <= pi.arg0 < 256
    ensures |m.regs| == 256 && Step(AlwaysFalse(), lits, pi, m) == Some(Put(m, pi.arg0, v)) && m.regs[pi.arg0] != v
  {
    lits := [];
    if IsLoad(pi.op) {
      v := LoadedValue(lits, pi.op, pi.arg1);
      m := Machine(seq(256, _ => if v == Null then Bool(true) else Null), heap);
    } else {
      v := Bool(false);
      m := Machine(seq(256, _ => Null), heap);
    }
  }

  /**
   * An operation followed by a MOVE may be retargeted, as far as the named locals go, if and only if the register it
   * no longer sets is a temporary or the target of the MOVE.
   */
  lemma RetargetingIsRightIff(vlocals: seq<bool>, pi: Instr, i: Instr, f: Instr, heap: Heap)
    requires Retargets(vlocals, pi, i, f) && 0 <= pi.arg0 < 256 && 0 <= i.arg0 < 256
    ensures RetargetingAgrees(vlocals, pi, i, f) <==> !IsLocal(vlocals, pi.arg0) || pi.arg0 == i.arg0
  {
    if IsLocal(vlocals, pi.arg0) && pi.arg0 != i.arg0 {
      var lits, m, v := SomethingIsLost(pi, heap);
      var plain, fused := Steps(AlwaysFalse(), lits, i, Step(AlwaysFalse(), lits, pi, m)),
        Step(AlwaysFalse(), lits, f, m);
      assert plain.Some? && plain.value.regs[pi.arg0] == v;
      assert fused.Some? ==> fused.value.regs[pi.arg0] == m.regs[pi.arg0];
      assert !SameLocals(plain, fused, vlocals);
    } else {
      forall ops, lits, m: Machine | |m.regs| == 256
        ensures SameLocals(Steps(ops, lits, i, Step(ops, lits, pi, m)), Step(ops, lits, f, m), vlocals)
      {
        RetargetingStep(ops, lits, vlocals, pi, i, f, m);
      }
    }
  }

  lemma RetargetingStep(ops: Ops, lits: seq<SQObject>, vlocals: seq<bool>, pi: Instr, i: Instr, f: Instr, m: Machine)
    requires Retargets(vlocals, pi, i, f) && 0 <= pi.arg0 < |m.regs| && 0 <= i.arg0 < |m.regs|
    requires !IsLocal(vlocals, pi.arg0) || pi.arg0 == i.arg0
    ensures SameLocals(Steps(ops, lits, i, Step(ops, lits, pi, m)), Step(ops, lits, f, m), vlocals)
  {
    var v := ComputedValue(ops, lits, pi, m);
    assert Step(ops, lits, pi, m) == PutResult(m, pi.arg0, v);
    assert Step(ops, lits, f, m) == PutResult(m, i.arg0, v);
  }

  // ---------- whole lists ----------

  /** No MOVE in the list takes the target of an operation that sets a named local. */
  predicate KeepsLocals(fs: FState, list: seq<Instr>)
    decreases |list|
  {
    list == [] || (
      && (list[0].op == OP_MOVE && FusedWith(fs, list[0]).Some? && FusedWith(fs, list[0]).value.op != OP_DMOVE ==>
            var t := Previous(fs).value.arg0;
            !IsLocal(fs.vlocals, t) || t == list[0].arg0)
      && KeepsLocals(Emit(fs, list[0]), list[1..]))
  }

  ghost predicate NoLocalIn(vlocals: seq<bool>, registers: set<int>) {
    forall r :: r in registers ==> !IsLocal(vlocals, r)
  }

  lemma LostIsTemporary(fs: FState, i: Instr, registers: int)
    requires Disciplined(fs.vlocals, i, registers)
    requires i.op == OP_MOVE && FusedWith(fs, i).Some? && FusedWith(fs, i).value.op != OP_DMOVE ==>
               var t := Previous(fs).value.arg0; !IsLocal(fs.vlocals, t) || t == i.arg0
    ensures NoLocalIn(fs.vlocals, Lost(fs, i))
  {
  }

  lemma {:induction false} StaleAreTemporaries(fs: FState, list: seq<Instr>, stale: set<int>, registers: int)
    requires KeepsLocals(fs, list) && NoLocalIn(fs.vlocals, stale) && forall i :: i in list ==>
             Disciplined(fs.vlocals, i, registers)
    ensures NoLocalIn(fs.vlocals, StaleAfter(fs, list, stale))
    decreases |list|
  {
    if list != [] {
      LostIsTemporary(fs, list[0], registers);
      StaleAreTemporaries(Emit(fs, list[0]), list[1..], StaleStep(fs, list[0], stale), registers);
    }
  }

  /**
   * Where no MOVE retargets a named local, optimised and plain code have the same outcome on the heap and all named
   * locals.
   */
  lemma PeepholeKeepsLocals(ops: Ops, lits: seq<SQObject>, vlocals: seq<bool>, list: seq<Instr>, m: Machine)
    requires forall i :: i in list ==> Disciplined(vlocals, i, |m.regs|)
    requires NoStaleReads(Blank(vlocals), list, {}) && KeepsLocals(Blank(vlocals), list)
    ensures SameLocals(Run(Interpreter(ops, lits), list, 0, m),
                       Run(Interpreter(ops, lits), EmitAll(Blank(vlocals), list).code, 0, m), vlocals)
  {
    hide Run, EmitAll;
    PeepholePreservesMeaning(ops, lits, vlocals, list, m);
    StaleAreTemporaries(Blank(vlocals), list, {}, |m.regs|);
  }

  // ---------- a program that loses a local ----------

  /** `local name = e`: the initial value goes into the register the new local is given. */
  function DeclareLocal(e: Expr, fs: FState): FState {
    var f1 := Compile(e, fs);
    var src := Top(f1);
    var f2 := PushTarget(PopTarget(f1));
    var f3 := if Top(f2) != src then Emit(f2, Make(OP_MOVE, Top(f2), src, 0, 0)) else f2;
    PushLocalVariable(PopTarget(f3))
  }

  function PushLocalVariable(fs: FState): FState {
    var n := |fs.vlocals| + 1;
    fs.(vlocals := fs.vlocals + [true], stacksize := if n > fs.stacksize then n else fs.stacksize)
  }

  // the function state after `local x = 1`, and after `, y = x`, in a function without parameters but `this`
  function WithX(): FState {
    FState([Instr(OP_LOADINT, 1, 1, 0, 0)], true, [true, true], [], [], 2, false)
  }

  function WithXAndY(): FState {
    FState([Instr(OP_LOADINT, 2, 1, 0, 0)], false, [true, true, true], [], [], 3, false)
  }

  lemma OneIsLoaded()
    ensures CompileConst(Integer(1), Start(1)) ==
            FState([Instr(OP_LOADINT, 1, 1, 0, 0)], true, [true, false], [1], [], 2, false)
  {
    var p := PushTarget(Start(1));
    assert p == FState([], true, [true, false], [1], [], 2, false);
    assert Emit(p, Instr(OP_LOADINT, 1, 1, 0, 0)) == p.(code := [Instr(OP_LOADINT, 1, 1, 0, 0)]);
  }

  lemma FirstDeclaration()
    ensures DeclareLocal(Const(Integer(1)), Start(1)) == WithX()
  {
    hide Compile, CompileConst;
    CompileLeaves(0, Integer(1), Start(1));
    OneIsLoaded();
  }

  /** The code of `local x = 1, y = x` is a single load of y. */
  lemma SecondDeclarationTakesTheFirst()
    ensures DeclareLocal(Local(1), WithX()) == WithXAndY()
  {
    hide Compile;
    CompileLeaves(1, Null, WithX());
    var p := PushTarget(PopTarget(PushRegister(WithX(), 1)));
    assert p == FState(WithX().code, true, [true, true, false], [2], [], 3, false);
    assert Emit(p, Make(OP_MOVE, 2, 1, 0, 0)) == p.(code := WithXAndY().code, opt := false);
  }

  /** After `local x = 1, y = x` the local y is 1, and x is whatever its register held. */
  lemma FirstLocalIsNeverSet(ops: Ops, m: Machine)
    requires |m.regs| == 3
    ensures var fs := DeclareLocal(Local(1), DeclareLocal(Const(Integer(1)), Start(1)));
            var end := Run(Interpreter(ops, fs.lits), fs.code, 0, m);
            && fs.vlocals == [true, true, true]
            && end.Some? && end.value.regs == [m.regs[0], m.regs[1], Integer(1)]
  {
    hide DeclareLocal, Run;
    FirstDeclaration();
    SecondDeclarationTakesTheFirst();
    RunLast(Interpreter(ops, []), WithXAndY().code, 0, m);
    assert Step(ops, [], WithXAndY().code[0], m) == Some(Put(m, 2, Integer(1)));
  }
}
