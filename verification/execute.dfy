/** The dispatch loop of the register machine. */
module Execution {
  import opened Objects
  import opened Bytecode
  import opened FuncState
  import opened Compiler
  import opened CompilerProof
  import opened CompilerLimits
  import opened CompilerMain
  import opened FunctionState
  import opened ExpressionCompiler

  /** The registers of the running frame and the instruction pointer of a machine. */
  class RegisterVM {
    var registers: seq<SQObject>
    var heap: Heap
    var ip: nat

    constructor (registers: seq<SQObject>, heap: Heap)
      ensures State() == Machine(registers, heap)
    {
      this.registers, this.heap, ip := registers, heap, 0;
    }

    function State(): Machine
      reads this
    {
      Machine(registers, heap)
    }

    /** Runs the code from its start until control leaves it. The result is false after an exception. */
    method Execute(ops: Ops, lits: seq<SQObject>, code: seq<Instr>) returns (ok: bool)
      modifies this
      ensures match Run(Interpreter(ops, lits), code, 0, old(State()))
              case None => !ok
              case Some(m) => ok && State() == m
    {
      ip, ok := 0, true;
      ghost var step := Interpreter(ops, lits);
      while ip < |code|
        invariant Run(step, code, ip, State()) == Run(step, code, 0, old(State()))
        decreases |code| - ip
      {
        var i := code[ip];
        ip := ip + 1;
        match Exec(ops, lits, i, State()) {
          case None => return false;
          case Some((m, skipped)) =>
            registers, heap := m.regs, m.heap;
            ip := ip + skipped;
        }
      }
    }
  }

  /**
   * Compiling an expression without a stray jump over n locals and executing the code: an exception exactly where
   * evaluation raises one, and otherwise the value in the target register, the locals and the heap as they were.
   */
  method CompileAndExecute(ops: Ops, e: Expr, n: nat, m: Machine) returns (ok: bool, value: SQObject, end: Machine)
    requires 0 < n && WellFormed(e, Start(n).vlocals) && NoStrayJump(e, Start(n))
    requires FitsFrame(e, n) && n + Depth(e) <= |m.regs|
    ensures Eval(ops, m, e) == if ok then Some(value) else None
    ensures ok ==> AgreeBelow(m, end, n) && end.heap == m.heap
  {
    hide Compile, Eval, Exec, NoStrayJump, WellFormed;
    var fs := new SQFuncState(n);
    assert fs.State() == Start(n);
    var compiler := new SQCompiler(fs);
    compiler.Expression(e);
    var target := fs.TopTarget();
    var vm := new RegisterVM(m.regs, m.heap);
    ExpressionIsCompiledCorrectly(ops, e, n, m);
    ok := vm.Execute(ops, fs.literals, fs.instructions);
    end := vm.State();
    value := Reg(end, target);
  }
}
