# Verification of Swagger

Swagger programs the flash of ARM microcontrollers over serial wire debug. A host program runs scripts in the Squirrel
language, which it carries with it as a compiler, a virtual machine and a library; scripts queue commands, which go as stuffed
packets over a serial line to an Arduino that drives the two debug wires. This project is a Dafny model of the parts of both
where most can go wrong, with proofs of what they promise.

Code that works in place is modelled in place: classes with the fields of the original, methods with its branches and loops.
Each is proved against a specification function or predicate, and what the original promises is proved about that.

| file | what it models |
|---|---|
| `objects.dfy` | values and their hashes |
| `sqtable_spec.dfy`, `sqtable.dfy` | the chained scatter table behind every Squirrel table, as a finite map |
| `bytecode.dfy`, `funcstate.dfy` | the register machine, and what the peephole optimiser preserves |
| `compiler.dfy`, `compiler_shape.dfy`, `compiler_proof.dfy`, `compiler_main.dfy` | code generation for expressions, and its correctness |
| `compiler_limits.dfy` | which expressions fit the registers and literals of a function |
| `named_locals.dfy` | which named locals the optimiser keeps, and a program in which it loses one |
| `sqfuncstate.dfy`, `execute.dfy` | the compiler and the dispatch loop as the original has them, and both together |
| `outers.dfy`, `sqvm_outers.dfy` | captured variables, and the list of pointers into a moving stack that implements them |
| `generator.dfy` | generators that yield on one thread and resume on another |
| `gcchain.dfy` | the chain of collectable objects, the mark phase and resurrection |
| `linkedchains.dfy`, `reftable.dfy`, `stringtable.dfy` | chains through a pool of nodes, the reference table and the table of interned strings |
| `delegates.dfy` | delegation between tables |
| `operators.dfy` | the comparison and the truth of values |
| `heapsort.dfy` | sorting an array with a comparison of the program, or with the default one |
| `rex.dfy` | the regular expression matcher |
| `bytes.dfy`, `bytestream.dfy`, `protostream.dfy`, `sqserialise.dfy` | bytes, and saving and loading bytecode |
| `cobs.dfy` | byte stuffing and packets, in the host and in the firmware |
| `protocol.dfy` | commands, the firmware's dispatcher, the host's queues and a whole exchange |
| `exchange.dfy` | what a packet does and answers in terms of the probe, and the script functions that make exchanges |
| `memory_port.dfy`, `swd.dfy` | a memory access port; transactions on the debug wires, retries and the cache of the selected access port |

Six things hold of the code that its authors may not expect.

* The optimiser's rule for a comparison followed by a conditional jump does not look at the register that the jump tests.
  It is right if and only if that is the target of the comparison (`CompilerMain.FusedJumpIsRightIff`). In
  `(x < y) == (z ? false : true)` it is not: with x >= y and a z that is not false the expression is true, and its code compares
  with a register that the comparison no longer sets (`CompilerMain.StrayJumpIsMiscompiled`). Compilation is proved right for every
  expression without such a jump, and in particular for every expression in which no `?:` tests a bare local.
* The optimiser's rule for an operation followed by a MOVE does not ask whether the operation sets a named local. The rule keeps
  all named locals if and only if the operation sets none, or the MOVE sets the same one (`NamedLocals.RetargetingIsRightIff`). After
  `local x = 1, y = x` the local x is never set (`NamedLocals.FirstLocalIsNeverSet`).
* `SQTable::NewSlot` returns true for a new key only if no rehash was needed, because a rehash places the key before the second
  attempt looks for it. That is so for every key that finds one unused node left, whatever its hash (`HashTable.NoSpareLeft`), so
  the fourth key of a new table is reported as if it had been there (`HashTable.FourthKeyIsDenied`).
* A raw write of what is cached to the debug port register SELECT leaves the cache of the selected access port right
  (`AccessPort.ArduinoSWDInterface.WriteDP`). For every other word there is a target and a run in which the next read of the access
  port goes elsewhere (`AccessPort.RawSelectMisleads`).
* Without a comparison function an array of nulls, booleans, integers and strings is sorted if and only if those that are not null
  are of one kind. Otherwise the sort fails, however the elements are arranged (`HeapSort.SortByDefault`).
* When a wait for memory runs out of tries the firmware answers, but neither ends the packet nor goes on to the next command. A packet
  is answered once if and only if that does not happen (`Protocol.OneAnswerIff`); a wait for bits that never come is answered without
  end (`Protocol.HopelessWaitNeverEnds`).

How the proofs go: linked structures carry a ghost layout (which chain a node is on, how far from its end), so that
reachability is an inequality and no proof follows a chain by induction. The compiler theorem is an induction over expressions
whose hypothesis speaks of code emitted after any other code and run from any machine. The stream's writer puts bytes in front of
whatever follows, so that round trips compose without lengths. Lemmas that need no automatic induction switch it off.

`dafny verify dfyconfig.toml` checks everything.

## Model

| member | source | states |
|---|---|---|
| ScatterTable.FreeIsAlone | contrib/squirrel/squirrel/sqtable.cpp:135-146 | a node the free pointer can still hand out has no predecessor and no successor on any chain |
| ScatterTable.OnePredecessor | contrib/squirrel/squirrel/sqtable.cpp:142-145 | no node has two predecessors, so the walk that looks for the one before a displaced node finds the only one |
| ScatterTable.PlaceAtHome | contrib/squirrel/squirrel/sqtable.cpp:128-161 | taking an empty main position keeps chains acyclic, live keys unique and reachable from their main positions, and the nodes at or below the free pointer untouched |
| ScatterTable.PlaceAfterHome | contrib/squirrel/squirrel/sqtable.cpp:154-161 | chaining the new key into the free node right after its main position keeps the whole invariant |
| ScatterTable.PlaceByMoving | contrib/squirrel/squirrel/sqtable.cpp:140-161 | moving a displaced node into the free node, in its place on its own chain, and taking its position keeps the whole invariant |
| ScatterTable.StoreKeepsShape | contrib/squirrel/squirrel/sqtable.cpp:123-127 | overwriting the value of a live node changes exactly that binding, and of a dead one none |
| ScatterTable.EraseKeepsRest | contrib/squirrel/squirrel/sqtable.cpp:21-31 | a removed key leaves a linked tombstone: every other key is still found and exactly one binding is gone |
| ScatterTable.FreePointerMoves | contrib/squirrel/squirrel/sqtable.cpp:163-171 | lowering the free pointer to the next free node keeps the invariant |
| HashTable.KeysFitNodes | contrib/squirrel/squirrel/sqtable.cpp:46-71 | there are never more live keys than nodes, and as many only when every node is live |
| HashTable.StuckMeansFull | contrib/squirrel/squirrel/sqtable.cpp:163-172 | as long as nothing was removed since the last allocation the free pointer runs out only when every node holds a key |
| HashTable.OneNodeForEachKey | contrib/squirrel/squirrel/sqtable.cpp:46-71 | there are as many live nodes as live keys |
| HashTable.NoSpareLeft | contrib/squirrel/squirrel/sqtable.cpp:128-172 | with one node left that holds no key, that node is the one an absent key takes, whatever the hash, so that a rehash follows |
| HashTable.SQTable.constructor | contrib/squirrel/squirrel/sqtable.cpp:9-19 | a new table is empty, of a power of two of at least 4 nodes that is not below the size asked for |
| HashTable.SQTable.AllocNodes | contrib/squirrel/squirrel/sqtable.cpp:33-44 | fresh nodes, none of them used, the free pointer at the last |
| HashTable.SQTable.Find | contrib/squirrel/squirrel/sqtable.h:66-76 | the chain walk ends, and finds the node of a key exactly when the key is live |
| HashTable.SQTable.Get | contrib/squirrel/squirrel/sqtable.cpp:108-118 | found exactly when the finite map binds the key, with its value |
| HashTable.SQTable.Set | contrib/squirrel/squirrel/sqtable.cpp:195-203 | changes the binding of a present key and nothing else, an absent key changes nothing |
| HashTable.SQTable.Predecessor | contrib/squirrel/squirrel/sqtable.cpp:137-145 | the walk from the main position of a displaced key ends at the node before it |
| HashTable.SQTable.Place | contrib/squirrel/squirrel/sqtable.cpp:128-161 | whichever of the three branches is taken, the key gets a node, nothing else is lost and at most one free node is used |
| HashTable.SQTable.CorrectFirstFree | contrib/squirrel/squirrel/sqtable.cpp:163-171 | stops at the highest free node at or below the free pointer, and fails only if there is none |
| HashTable.SQTable.Insert | contrib/squirrel/squirrel/sqtable.cpp:128-171 | succeeds exactly when a free node is left besides the one taken; the map then has the new binding and no other change |
| HashTable.SQTable.NewSlot | contrib/squirrel/squirrel/sqtable.cpp:119-174 | the map gets exactly this binding, by way of a rehash or not; the result is true exactly for an absent key that needed no rehash, so for none when one node without a key is left, and for every absent key if more are left and nothing was removed |
| HashTable.AddNewKey | contrib/squirrel/squirrel/sqtable.cpp:119-174 | in a table from which nothing was removed an absent key is reported as new if and only if two nodes without a key are left |
| HashTable.FourthKeyIsDenied | contrib/squirrel/squirrel/sqtable.cpp:119-174 | four different keys put into a new table, under any hash function: all four are stored, and the fourth is reported as if it had been there |
| HashTable.SQTable.ReinsertNode | contrib/squirrel/squirrel/sqtable.cpp:63-67 | a key reinserted by a rehash never needs another rehash |
| HashTable.SQTable.Reinsert | contrib/squirrel/squirrel/sqtable.cpp:62-67 | the new nodes end up with exactly the bindings of the old ones |
| HashTable.SQTable.Rehash | contrib/squirrel/squirrel/sqtable.cpp:46-71 | ends, keeps every binding, and leaves a power of two of nodes and a count of used nodes equal to the number of live keys |
| HashTable.SQTable.Remove | contrib/squirrel/squirrel/sqtable.cpp:21-31 | removes exactly the binding of the key, whether or not the table shrinks |
| HashTable.SQTable.Clear | contrib/squirrel/squirrel/sqtable.cpp:205-221 | leaves the empty map in a well-formed table |
| HashTable.SQTable.Next | contrib/squirrel/squirrel/sqtable.cpp:176-192 | the first live node at or after the given place, with its key and value, or -1 if none is left |
| HashTable.SQTable.Iterate | contrib/squirrel/squirrel/sqtable.cpp:176-192 | an iteration from the start lists exactly the bindings of the table, each key once, and ends |
| HashTable.SQTable.Clone | contrib/squirrel/squirrel/sqtable.cpp:73-106 | a table of its own with the same bindings, the original untouched |
| HashTable.SQTable.Run | contrib/squirrel/squirrel/sqtable.cpp:21-203 | over every run of NewSlot, Set, Remove and Clear the table agrees with a finite map |
| FuncState.FusedCompare | contrib/squirrel/squirrel/sqfuncstate.cpp:551-561 | LOAD then EQ or NE fused: same result, but for the temporary the load would have filled |
| FuncState.FusedGet | contrib/squirrel/squirrel/sqfuncstate.cpp:482-491 | LOAD then GET fused into GETK: same result but for the temporary, given that key and object are different registers |
| FuncState.FusedPrepCall | contrib/squirrel/squirrel/sqfuncstate.cpp:492-501 | LOAD then PREPCALL fused into PREPCALLK: same result but for the temporary |
| FuncState.FusedAppend | contrib/squirrel/squirrel/sqfuncstate.cpp:502-520 | a load fused with APPENDARRAY: same heap, same registers but for the temporary |
| FuncState.FusedRetarget | contrib/squirrel/squirrel/sqfuncstate.cpp:521-532 | an operation then MOVE, retargeted: same result but for the register the operation no longer writes |
| FuncState.FusedPair | contrib/squirrel/squirrel/sqfuncstate.cpp:533-550 | two MOVEs or two LOADs in one instruction: the same state |
| FuncState.FusedNulls | contrib/squirrel/squirrel/sqfuncstate.cpp:562-569 | adjoining LOADNULLS joined: the same state |
| FuncState.UntargetedStep | contrib/squirrel/squirrel/sqfuncstate.cpp:463-473 | an assignment whose target already holds the value has the same effect with the target marked as unwanted |
| FuncState.EmitKeepsSegment | contrib/squirrel/squirrel/sqfuncstate.cpp:449-580 | the optimiser never changes code at or before a jump, and jumps keep landing inside the code that has been emitted |
| FuncState.EmitRuns | contrib/squirrel/squirrel/sqfuncstate.cpp:449-580 | whatever rule applies, running the emitted code is running the code so far and then the instruction, but for the temporary that rule loses |
| FuncState.EmitAllRuns | contrib/squirrel/squirrel/sqfuncstate.cpp:449-580 | the same for whole lists: optimised and plain code fail together, or leave the same heap and the same registers except those whose last write was fused away |
| FuncState.PeepholePreservesMeaning | contrib/squirrel/squirrel/sqfuncstate.cpp:449-580 | for every straight-line list with the compiler's operands that reads no fused-away register, optimised and plain code fail together, or leave the same heap and agree on every register except those whose last write was fused away; a MOVE may take the target of an operation that sets a named local, so such a register need not be a temporary |
| NamedLocals.RetargetingIsRightIff | contrib/squirrel/squirrel/sqfuncstate.cpp:521-532 | retargeting an operation to the MOVE after it agrees with the pair on every named local, over all operations, literals and machines, if and only if the register it no longer sets is a temporary or the target of the MOVE; the rule does not check this |
| NamedLocals.StaleAreTemporaries | contrib/squirrel/squirrel/sqfuncstate.cpp:449-580 | if no MOVE of a list takes the target of an operation that sets a named local, only temporaries are ever fused away |
| NamedLocals.PeepholeKeepsLocals | contrib/squirrel/squirrel/sqfuncstate.cpp:449-580 | for every such list optimised and plain code fail together or leave the same heap and the same named locals |
| NamedLocals.FirstDeclaration | contrib/squirrel/squirrel/sqcompiler.cpp:1015-1029 | the state after local x = 1: one load, and the optimiser still awake |
| NamedLocals.SecondDeclarationTakesTheFirst | contrib/squirrel/squirrel/sqcompiler.cpp:1015-1029 | the code of local x = 1, y = x is a single load of y |
| NamedLocals.FirstLocalIsNeverSet | contrib/squirrel/squirrel/sqcompiler.cpp:1015-1029 | running it leaves x as whatever its register held, from every machine and under all operations |
| CompilerShape.CompileGrows | contrib/squirrel/squirrel/sqcompiler.cpp:371-609 | code generation never forgets an error, a literal or the deepest stack it needed |
| CompilerShape.CompilePushes | contrib/squirrel/squirrel/sqcompiler.cpp:371-609 | every expression leaves exactly one more target, a named local itself or a new temporary on top of the registers, and frees all others |
| CompilerProof.EvalFrame | contrib/squirrel/squirrel/sqcompiler.cpp:371-609 | the value of an expression depends on its locals only, not on temporaries |
| CompilerProof.ConstRuns | contrib/squirrel/squirrel/sqcompiler.cpp:874-897 | the code of a constant puts it into the new target, through the literals or inline |
| CompilerProof.UnaryRuns | contrib/squirrel/squirrel/sqcompiler.cpp:898-903 | the code of a unary operator computes it from its operand, and fails with it |
| CompilerProof.BinaryRuns | contrib/squirrel/squirrel/sqcompiler.cpp:454-469 | the code of a binary operator applies it to the left and the right value, in that order, and fails where either fails |
| CompilerProof.IndexRuns | contrib/squirrel/squirrel/sqcompiler.cpp:325-330 | the code of an index expression gets the key from the object, with the fallback of a lookup in `this` exactly where the object is `this` |
| CompilerProof.ShortCircuitRuns | contrib/squirrel/squirrel/sqcompiler.cpp:470-510 | the short-circuit operators: the second operand runs exactly when the first does not decide, and the target gets the value that does |
| CompilerProof.JumpRuns | contrib/squirrel/squirrel/sqcompiler.cpp:431-434 | JZ on the condition, fused with a comparison or not, jumps exactly when the condition is false |
| CompilerProof.CondCorrect | contrib/squirrel/squirrel/sqcompiler.cpp:431-449 | ?: runs exactly one branch, chosen by the condition, and leaves its value in the target |
| CompilerMain.ConnectivesAreLogical | contrib/squirrel/squirrel/sqvm.cpp:963-974 | whatever the operators do: && is false exactly if an operand is, || exactly if both are, each has the value of an operand, ?: has that of the branch chosen, and what is not needed may fail |
| CompilerProof.NoBareConditionIsSafe | contrib/squirrel/squirrel/sqcompiler.cpp:431-434 | if no condition of ?: is just a local, no bare local is ever tested right after a comparison |
| CompilerProof.CompiledCmpIsTop | contrib/squirrel/squirrel/sqcompiler.cpp:371-609 | the code of an expression that is not a bare local ends in a comparison that JZ would be fused with only if that comparison computed the value of the expression |
| CompilerProof.NoStrayJumpIsOwn | contrib/squirrel/squirrel/sqcompiler.cpp:431-434 | if no bare local is tested right after a comparison then every JZ of the expression, at any depth, is fused with no comparison but the one that computed its own condition |
| CompilerProof.CompileCorrect | contrib/squirrel/squirrel/sqcompiler.cpp:371-609 | by induction over all expressions: after any code, from any machine, the code of an expression computes its value, fails exactly when it does, and changes no register allocated before it |
| CompilerLimits.CompileHolds | contrib/squirrel/squirrel/sqfuncstate.cpp:225-240 | every constant that an instruction cannot hold becomes one literal, however often it occurs, and nothing else becomes one |
| CompilerLimits.CompileNeeds | contrib/squirrel/squirrel/sqcompiler.cpp:371-609 | in any function state: an expression is refused exactly if the registers in use and its depth exceed 256, or the literals their number; else the stack size grows to exactly what the depth needs |
| CompilerLimits.CompilesIff | contrib/squirrel/squirrel/sqfuncstate.cpp:259-268 | code generation for an expression over n locals fails if and only if n and its depth, read off the expression, exceed 256, or its distinct constants exceed the literals; the stack size is n and the depth |
| CompilerLimits.LoadFits | contrib/squirrel/squirrel/sqcompiler.cpp:874-889 | the operand of the load of a constant fits 32 bits: an inline integer, or the place of a literal |
| CompilerMain.ExpressionIsCompiledCorrectly | contrib/squirrel/squirrel/sqcompiler.cpp:371-609 | for every expression over n locals that needs no more registers and literals than a function may have, and in which no JZ is fused with the comparison of another register, the optimised code fails exactly when evaluation fails, and otherwise puts the value into the target and changes no local and nothing in the heap |
| CompilerMain.NoBareConditionIsCompiledCorrectly | contrib/squirrel/squirrel/sqcompiler.cpp:371-609 | the same under a condition that can be read off the expression: no ?: tests a bare local |
| CompilerMain.FusedJumpIsRightIff | contrib/squirrel/squirrel/sqfuncstate.cpp:455-462 | the comparison-and-jump rule preserves the jump, over all operations and machines, if and only if JZ tests the target of the comparison; the rule does not check this |
| CompilerMain.StrayJumpIsCompiledTo | contrib/squirrel/squirrel/sqcompiler.cpp:431-449 | the very instructions emitted for (x < y) == (z ? false : true) |
| CompilerMain.StrayJumpIsMiscompiled | contrib/squirrel/squirrel/sqfuncstate.cpp:455-462 | under the comparison, equality and truth of the machine, for all integers x >= y and every z that is not false that expression is true, while its code gives true only if the stale target of the comparison happened to hold true |
| FunctionState.SQFuncState.constructor | contrib/squirrel/squirrel/sqfuncstate.cpp:89-108 | a new function has its named locals, no code and an optimiser that is awake |
| FunctionState.SQFuncState.AddInstruction | contrib/squirrel/squirrel/sqfuncstate.cpp:449-580 | the in-place optimiser, case by case, builds the list the rules describe |
| FunctionState.SQFuncState.GetConstant | contrib/squirrel/squirrel/sqfuncstate.cpp:225-239 | the place of the literal, which is found if it was there and added if not |
| FunctionState.SQFuncState.AllocStackPosition | contrib/squirrel/squirrel/sqfuncstate.cpp:259-268 | the next free register; the stack size follows, with an error once more than 256 registers are needed, which is what CompilesIff says of whole expressions |
| FunctionState.SQFuncState.Pop | contrib/squirrel/squirrel/sqfuncstate.cpp:288-298 | gives up the target on top, and its register if it was a temporary |
| ExpressionCompiler.SQCompiler.Expression | contrib/squirrel/squirrel/sqcompiler.cpp:371-609 | the recursive code generator leaves in the function state exactly the code the correctness theorem is about |
| ExpressionCompiler.SQCompiler.LogicalExpression | contrib/squirrel/squirrel/sqcompiler.cpp:470-510 | the short-circuit operators with their jump patched over the second operand |
| ExpressionCompiler.SQCompiler.ConditionalExpression | contrib/squirrel/squirrel/sqcompiler.cpp:431-449 | ?: with both jumps patched |
| ExpressionCompiler.SQCompiler.LoadConst | contrib/squirrel/squirrel/sqcompiler.cpp:874-897 | integers that fit 32 bits go inline, others and all strings through the literals |
| ExpressionCompiler.SQCompiler.EmitBinaryOp | contrib/squirrel/squirrel/sqcompiler.cpp:463-469 | pops both operands and emits the operation into a new target |
| ExpressionCompiler.CodeNeverShrinks | contrib/squirrel/squirrel/sqcompiler.cpp:431-449 | jump positions that are patched later still lie inside the code |
| Execution.RegisterVM.Execute | contrib/squirrel/squirrel/sqvm.cpp:867-875 | the dispatch loop runs forward jumps to the end of the code, or stops at the first exception |
| Execution.CompileAndExecute | contrib/squirrel/squirrel/sqcompiler.cpp:371-609 | compiling any expression without a stray jump that fits a function with n locals, `this` among them, and executing the code gives what evaluating it gives, exceptions included, and leaves the locals and the heap as they were |
| CapturedVariables.ApplyIsSound | contrib/squirrel/squirrel/sqvm.cpp:1592-1678 | capture, closing, calls, returns and assignments keep frames nested within the stack and at most one open variable for a slot; the stack never shrinks and no variable is lost |
| CapturedVariables.ReadAfter | contrib/squirrel/squirrel/sqvm.cpp:1592-1678 | one step changes what a captured variable reads only if it assigns to that variable |
| CapturedVariables.LeaveCloses | contrib/squirrel/squirrel/sqvm.cpp:1644-1659 | leaving a frame closes exactly the variables at or above its base |
| CapturedVariables.EnterThenLeave | contrib/squirrel/squirrel/sqvm.cpp:1613-1659 | entering a frame and leaving it gives the caller its base, its top and its calls back; the slots below its top are as they were, those from there to the top of the called frame null, and the variables captured below the called frame still open on the same slots |
| CapturedVariables.BalancedRunKeepsFrame | contrib/squirrel/squirrel/sqvm.cpp:1613-1659 | over every run in which calls and returns balance, whatever is captured, assigned, closed and grown in between, base, top and calls at the end are those at the start |
| CapturedVariables.SharedUntilClosed | contrib/squirrel/squirrel/sqvm.cpp:1592-1611 | capturing a slot again after any list of operations gives the same variable if and only if none of them closed it |
| CapturedVariables.ReadsLastAssigned | contrib/squirrel/squirrel/sqvm.cpp:1592-1678 | over every run, all closures that captured a variable read the value last assigned to it |
| OpenOuters.InsertKeepsLinked | contrib/squirrel/squirrel/sqvm.cpp:1605-1609 | a new outer linked in at its place keeps the list strictly descending by slot with every open outer on it |
| OpenOuters.CloseKeepsLinked | contrib/squirrel/squirrel/sqvm.cpp:1672-1676 | taking the head off the list closes that variable and no other |
| OpenOuters.RelocatedIsLinked | contrib/squirrel/squirrel/sqvm.cpp:1661-1668 | after the stack moved, relocated outers form the same list over the new stack |
| OpenOuters.SQVM.FindOuter | contrib/squirrel/squirrel/sqvm.cpp:1592-1611 | the outer of a slot is the one on the list if there is one, else a new one; all else is as it was |
| OpenOuters.SQVM.CloseOuters | contrib/squirrel/squirrel/sqvm.cpp:1670-1678 | closes exactly the outers at or above the slot, each with the value its slot has |
| OpenOuters.SQVM.RelocateOuters | contrib/squirrel/squirrel/sqvm.cpp:1661-1668 | every open outer ends up pointing at its own slot of the new stack |
| OpenOuters.SQVM.Grow | contrib/squirrel/squirrel/sqvm.cpp:1638-1639 | resizing keeps the slots' values and every captured variable |
| OpenOuters.SQVM.EnterFrame | contrib/squirrel/squirrel/sqvm.cpp:1613-1642 | the caller's base and top are saved, so that EnterThenLeave holds of what is saved; the stack grows when it has to, no captured variable changes |
| OpenOuters.SQVM.LeaveFrame | contrib/squirrel/squirrel/sqvm.cpp:1644-1659 | the caller's frame is back, with its own base and top if it is the one that was entered (EnterThenLeave); the frame's captured variables are closed with their values before its registers are cleared |
| OpenOuters.SQVM.GetOuter | contrib/squirrel/squirrel/sqvm.cpp:876-881 | a closure reads its variable, wherever it lives |
| OpenOuters.SQVM.SetOuter | contrib/squirrel/squirrel/sqvm.cpp:882-890 | a closure assigns to its variable and to nothing else |
| OpenOuters.SQVM.Run | contrib/squirrel/squirrel/sqvm.cpp:1592-1678 | the pointer list refines captured variables over every run, however often the stack moves; after a run in which calls and returns balance, base, top and calls are those before it |
| Generators.PoppedTwice | contrib/squirrel/squirrel/sqobject.cpp:153-160 | traps popped twice come back in their first order, shifted by the sum of both shifts |
| Generators.SQGenerator.Yield | contrib/squirrel/squirrel/sqobject.cpp:134-163 | only a running generator yields; registers below the target, a weak reference to `this`, and the frame's traps relative to its base are put away; a refused yield changes nothing |
| Generators.SQGenerator.PutTrapsAway | contrib/squirrel/squirrel/sqobject.cpp:153-160 | takes exactly the frame's traps off the thread, rebased |
| Generators.SQGenerator.Resume | contrib/squirrel/squirrel/sqobject.cpp:165-206 | only a suspended generator resumes, on top of the thread; otherwise neither the generator nor the thread changes |
| Generators.SQGenerator.TakeTrapsBack | contrib/squirrel/squirrel/sqobject.cpp:185-192 | puts exactly the saved traps on top of those of the thread, rebased |
| Generators.SQGenerator.TakeRegistersBack | contrib/squirrel/squirrel/sqobject.cpp:193-199 | the registers are copied back and the saved ones dropped |
| Generators.FrameSurvives | contrib/squirrel/squirrel/sqobject.cpp:134-206 | yield at one base and resume at another: registers, `this` if it is alive, instruction pointer, closure, literals and traps in their order come back, shifted by the difference; the call writes its result where the resume asked for, and has saved base and top of the thread it was resumed on; everything else on the thread stays |
| Generators.EndGivesCallerBack | contrib/squirrel/squirrel/sqvm.cpp:444-474 | when the resumed frame ends, the thread it was resumed on has its base, its top, its calls and its registers back |
| Generators.Suspend | contrib/squirrel/squirrel/sqobject.cpp:134-206 | one yield and the resume after it, both of which succeed on a running generator, and which leave nothing of the round behind |
| Generators.Live | contrib/squirrel/squirrel/sqobject.cpp:134-206 | over every run of yields and resumes, whatever the program did to the frame and the threads in between, each resume gives the frame of the last yield back, with the target, the base and the top of the resume |
| Generators.EnteredIsEnter | contrib/squirrel/squirrel/sqvm.cpp:1613-1642 | the frame a generator is resumed in is entered as the frames of captured variables are |
| Generators.Obey | contrib/squirrel/squirrel/sqclosure.h:108-140 | over every run of yields, resumes and kills a generator accepts and refuses what its state says: only what runs yields, only what is suspended resumes |
| Generators.OneYieldForEachResume | contrib/squirrel/squirrel/sqobject.cpp:134-206 | over every run there is an accepted yield between any two accepted resumes |
| Generators.DeadForever | contrib/squirrel/squirrel/sqclosure.h:123-126 | after a kill no yield and no resume is ever accepted |
| Generators.YieldLeavesCallers | contrib/squirrel/squirrel/sqobject.cpp:134-163 | yielding clears the frame and touches nothing below it |
| GcChain.AddLinks | contrib/squirrel/squirrel/sqstate.cpp:365-371 | an object put in front of a chain: linked both ways, each object once |
| GcChain.AddLeaves | contrib/squirrel/squirrel/sqstate.cpp:365-371 | another chain is not disturbed by it |
| GcChain.RemoveLinks | contrib/squirrel/squirrel/sqstate.cpp:373-381 | an object taken out from anywhere in a chain leaves the others linked in order |
| GcChain.RemoveLeaves | contrib/squirrel/squirrel/sqstate.cpp:373-381 | another chain is not disturbed by it |
| GcChain.JoinLinks | contrib/squirrel/squirrel/sqstate.cpp:306-312 | two chains joined are one chain |
| GcMark.ClosedHoldsPath | contrib/squirrel/squirrel/sqobject.cpp:555-672 | a set of objects closed under references holds everything reachable from it |
| GcMark.MarkedIsReachable | contrib/squirrel/squirrel/sqstate.cpp:253-274 | after marking from all roots, marked means reachable and nothing else |
| GcMark.SQSharedState.AddToChain | contrib/squirrel/squirrel/sqstate.cpp:365-371 | the field updates do what linking in front means |
| GcMark.SQSharedState.RemoveFromChain | contrib/squirrel/squirrel/sqstate.cpp:373-381 | the field updates do what unlinking means |
| GcMark.SQSharedState.Mark | contrib/squirrel/squirrel/sqobject.cpp:555-672 | ends on every graph, marks what only becomes reachable through the object, and moves exactly that to the other chain |
| GcMark.SQSharedState.RunMark | contrib/squirrel/squirrel/sqstate.cpp:253-274 | the new chain holds exactly the objects reachable from the roots, the old chain exactly the rest |
| GcMark.SQSharedState.CreateArray | contrib/squirrel/squirrel/sqstate.cpp:291 | the result array joins the chain of reachable objects and leaves the unreachable chain alone |
| GcMark.SQSharedState.ListChain | contrib/squirrel/squirrel/sqstate.cpp:293-304 | counts every object of the chain, and lists all but function prototypes and outers in order |
| GcMark.SQSharedState.UnMarkChain | contrib/squirrel/squirrel/sqstate.cpp:315-319 | clears the marks of the chain's objects and changes nothing else |
| GcMark.SQSharedState.Relink | contrib/squirrel/squirrel/sqstate.cpp:290-313 | unreachable objects, result array and reachable objects become one chain |
| GcMark.SQSharedState.ResurrectUnreachable | contrib/squirrel/squirrel/sqstate.cpp:276-329 | one well-formed chain of all previous objects and the result array, no mark left, the array listing exactly the unreachable objects a program can see |
| LinkedChains.MoveKeepsLinked | contrib/squirrel/squirrel/sqstate.cpp:457-466 | moving a node from one singly linked chain to the front of another keeps all chains in order |
| LinkedChains.AppendKeepsLinked | contrib/squirrel/squirrel/sqstate.cpp:609-610 | a new node in front of a chain keeps all chains in order |
| LinkedChains.UnlinkKeepsLinked | contrib/squirrel/squirrel/sqstate.cpp:642-646 | taking a node out of its chain keeps all chains in order |
| ReferenceTable.AddKeepsStored | contrib/squirrel/squirrel/sqstate.cpp:502-513 | moving the first free node to its bucket keeps buckets and free list a partition of the nodes |
| ReferenceTable.RemoveKeepsStored | contrib/squirrel/squirrel/sqstate.cpp:457-468 | moving a node back to the free list keeps the partition |
| ReferenceTable.FreeIfNotFull | contrib/squirrel/squirrel/sqstate.cpp:526-529 | the free list is empty exactly when all nodes are used |
| ReferenceTable.RefTable.AllocNodes | contrib/squirrel/squirrel/sqstate.cpp:537-561 | nothing but unused nodes, all on the free list in the order of their places |
| ReferenceTable.RefTable.Find | contrib/squirrel/squirrel/sqstate.cpp:517-525 | finds the one node of an object, with the node before it, if there is one |
| ReferenceTable.RefTable.Add | contrib/squirrel/squirrel/sqstate.cpp:502-513 | one unused node now holds the object with count 0, no other node changes |
| ReferenceTable.RefTable.Resize | contrib/squirrel/squirrel/sqstate.cpp:479-500 | every object keeps its count |
| ReferenceTable.RefTable.GetOrAdd | contrib/squirrel/squirrel/sqstate.cpp:515-535 | the node of the object, a new one if there was none; the counts stay |
| ReferenceTable.RefTable.AddRef | contrib/squirrel/squirrel/sqstate.cpp:434-440 | the multiset of references gains one |
| ReferenceTable.RefTable.Release | contrib/squirrel/squirrel/sqstate.cpp:451-477 | the multiset loses one; the result is true exactly when that was the last |
| ReferenceTable.RefTable.Run | contrib/squirrel/squirrel/sqstate.cpp:434-535 | over every balanced run the table refines a multiset, and reports exactly the last releases |
| StringTable.SQStringTable.Find | contrib/squirrel/squirrel/sqstate.cpp:594-600 | finds the live string with the given contents if there is one |
| StringTable.SQStringTable.Add | contrib/squirrel/squirrel/sqstate.cpp:590-615 | returns the live string with the contents if there is one, else a new one; all other strings live on |
| StringTable.SQStringTable.Insert | contrib/squirrel/squirrel/sqstate.cpp:602-611 | a new string in the bucket of its hash; no two live strings have equal contents |
| StringTable.SQStringTable.Before | contrib/squirrel/squirrel/sqstate.cpp:639-655 | the walk finds the string before a live one |
| StringTable.SQStringTable.Remove | contrib/squirrel/squirrel/sqstate.cpp:635-657 | exactly this string stops being live |
| StringTable.RehashStep | contrib/squirrel/squirrel/sqstate.cpp:624-629 | moving the first string of an old bucket to its new one keeps every string on exactly one chain |
| StringTable.SQStringTable.MoveBucket | contrib/squirrel/squirrel/sqstate.cpp:623-630 | an old bucket is emptied and every string of it is in its new bucket |
| StringTable.SQStringTable.Resize | contrib/squirrel/squirrel/sqstate.cpp:617-633 | a bigger table with the same live strings, each in the bucket of its hash |
| StringTable.SQStringTable.OneStringForEach | contrib/squirrel/squirrel/sqstate.cpp:590-657 | the count of used slots is the number of different contents that are alive |
| StringTable.SQStringTable.Run | contrib/squirrel/squirrel/sqstate.cpp:590-657 | over every run the table holds exactly the contents that were asked for and did not go away since, one string each |
| Delegation.RankedIsAcyclic | contrib/squirrel/squirrel/sqobject.cpp:120-132 | if delegates go down in some ranking there is no cycle |
| Delegation.LinkIsRanked | contrib/squirrel/squirrel/sqobject.cpp:120-132 | a link to a table whose chain does not hold this one keeps a ranking |
| Delegation.LinkClosesCycle | contrib/squirrel/squirrel/sqobject.cpp:120-132 | a link to a table whose chain holds this one closes a cycle |
| Delegation.SQTables.SetDelegate | contrib/squirrel/squirrel/sqobject.cpp:120-132 | accepts a link if and only if it creates no cycle, and changes nothing otherwise; the walk along the delegates ends |
| Delegation.SQTables.Run | contrib/squirrel/squirrel/sqobject.cpp:120-132 | over every run delegation stays free of cycles, and the delegates are those of the links in order, each made unless it would have closed a cycle |
| Delegation.FirstBinding | contrib/squirrel/squirrel/sqvm.cpp:1203-1300 | the binding of the first table of a chain that has one, and none exactly if no table has |
| Delegation.SQTables.Get | contrib/squirrel/squirrel/sqvm.cpp:1203-1300 | without metamethods a lookup gives the first binding along the chain of delegates, else the default delegate's |
| HeapSort.SinkOneLevel | contrib/squirrel/squirrel/sqbaselib.cpp:707-717 | swapping with the greatest child repairs the heap but one level lower |
| HeapSort.TopIsGreatest | contrib/squirrel/squirrel/sqbaselib.cpp:734-738 | in a heap whose parent of k is k / 2 the top is greatest, although place 0 is its own parent |
| HeapSort.TakeTop | contrib/squirrel/squirrel/sqbaselib.cpp:734-738 | moving the top behind the heap leaves a heap but for its top, and what was sorted stays sorted |
| HeapSort.Compare | contrib/squirrel/squirrel/sqbaselib.cpp:659-683 | one call of the comparison: what it answers about two elements is true of every preorder that it tells of |
| HeapSort.GreaterChild | contrib/squirrel/squirrel/sqbaselib.cpp:693-705 | never fails under a comparison that does not; if it succeeds no child is above the chosen one in any preorder the comparison tells of, also at the root, where the first child is the root itself |
| HeapSort.SinkOnce | contrib/squirrel/squirrel/sqbaselib.cpp:693-719 | one round of the loop moves the loose place down or ends with the heap whole, and only asks about elements of the array |
| HeapSort.SiftDown | contrib/squirrel/squirrel/sqbaselib.cpp:685-723 | ends for every comparison with a permutation of the heap's places; if it succeeds the heap is whole in every preorder that the comparison tells of, and it does succeed if the comparison never fails |
| HeapSort.MoveTop | contrib/squirrel/squirrel/sqbaselib.cpp:734-738 | one round of the second loop keeps heap below sorted |
| HeapSort.Sort | contrib/squirrel/squirrel/sqbaselib.cpp:725-740 | termination and a permutation under any comparison at all, even one that fails or contradicts itself; success if it does neither with the elements of the array; and after a success an array sorted by every preorder that the comparison tells of where it does not fail, which need not be total |
| HeapSort.SortByOrder | contrib/squirrel/squirrel/sqbaselib.cpp:725-740 | success and a sorted permutation under every comparison that answers as a total preorder on the elements of the array, whatever it does with other values |
| ObjectOperators.CharsAreTransitive | contrib/squirrel/squirrel/sqvm.cpp:216-217 | the order of strings by their first difference up to a zero is transitive |
| ObjectOperators.ComparesFirstDifference | contrib/squirrel/squirrel/sqvm.cpp:216-220 | one string is before another exactly if at their first difference it has the smaller character, or ends |
| ObjectOperators.DefaultOrderIsBelow | contrib/squirrel/squirrel/sqvm.cpp:205-264 | the default comparison puts null before everything else, false before true, and integers and strings in their usual order, and nothing else before anything |
| ObjectOperators.FalseIff | contrib/squirrel/squirrel/sqvm.cpp:654-664 | exactly null, false, the integer 0 and the two zeros of a float are false |
| HeapSort.DefaultOrders | contrib/squirrel/squirrel/sqvm.cpp:205-264 | the default comparison is a total preorder on plain values (null, booleans, integers, strings) of which those that are not null are of one kind |
| HeapSort.DefaultOrdersIff | contrib/squirrel/squirrel/sqvm.cpp:205-264 | on plain values there is a total preorder that the default comparison answers as if and only if those that are not null are of one kind |
| HeapSort.DefaultNeverFailsIff | contrib/squirrel/squirrel/sqvm.cpp:205-264 | on any values the default comparison never fails if and only if those that are not null are of one kind, integers and floats being one, and the metamethods and floats that it asks answer |
| HeapSort.ByDefaultIsBelievable | contrib/squirrel/squirrel/sqvm.cpp:205-264 | on plain values of whatever kinds the default comparison tells of its order within each kind |
| HeapSort.SortByDefault | contrib/squirrel/squirrel/sqbaselib.cpp:659-740 | without a comparison function: a sort that succeeds was of elements that, but for nulls, are of one kind, whatever floats, addresses and metamethods answer; it does succeed on such elements if those answer at all; an array of plain values is sorted successfully if and only if those that are not null are of one kind, and then no element is below an earlier one |
| Rex.MatchesForward | contrib/squirrel/sqstdlib/sqstdrex.cpp:383-548 | in the meaning of patterns a match goes forward and stays in the text |
| Rex.SQRex.MatchNode | contrib/squirrel/sqstdlib/sqstdrex.cpp:383-548 | terminates for every pattern, nested empty repetitions included; a result is a match of the node whatever node is given as next, and without repetitions and alternatives it is the only one, with failure only if there is none |
| Rex.SQRex.MatchGreedy | contrib/squirrel/sqstdlib/sqstdrex.cpp:388-437 | a repetition matched some number of times within its bounds |
| Rex.SQRex.MatchAlternative | contrib/squirrel/sqstdlib/sqstdrex.cpp:438-457 | one side of an alternative matched from first to last node |
| Rex.SQRex.MatchGroup | contrib/squirrel/sqstdlib/sqstdrex.cpp:458-489 | the nodes of a group matched one after the other; without repetitions and alternatives exactly if they do |
| Rex.SQRex.Match | contrib/squirrel/sqstdlib/sqstdrex.cpp:606-616 | true only if the whole text is one the pattern stands for; for patterns without repetitions and alternatives, if and only if it is |
| Rex.SQRex.Search | contrib/squirrel/sqstdlib/sqstdrex.cpp:618-645 | a reported span lies in the text and is a match; for patterns without repetitions and alternatives it is the leftmost one, and none is reported only if there is none |
| ByteStream.WordRoundTrip | contrib/squirrel/squirrel/sqobject.cpp:279-295 | a word of any width is read back from its bytes |
| ByteStream.ByteOfWord | contrib/squirrel/squirrel/sqobject.cpp:279-295 | byte k of a word in the stream is its digit of value 256^k |
| ByteStream.IntegerRoundTrip | contrib/squirrel/squirrel/sqobject.cpp:322-324 | a signed 64-bit integer is read back |
| ByteStream.ListRoundTrip | contrib/squirrel/squirrel/sqobject.cpp:426-460 | a counted list is read back if its elements are |
| ProtoStream.ObjectRoundTrip | contrib/squirrel/squirrel/sqobject.cpp:313-369 | every value that can be written is read back, whatever follows |
| ProtoStream.OuterRoundTrip | contrib/squirrel/squirrel/sqobject.cpp:436-441 | a captured variable is read back although more bytes are written for its kind than it has |
| ProtoStream.LocalRoundTrip | contrib/squirrel/squirrel/sqobject.cpp:443-450 | the debug entry of a local is read back |
| ProtoStream.InstrRoundTrip | contrib/squirrel/squirrel/sqobject.cpp:458-459 | an instruction is read back from its layout in memory |
| ProtoStream.ProtoRoundTrip | contrib/squirrel/squirrel/sqobject.cpp:408-551 | loading what was saved gives an equal function with all nested functions and leaves exactly the bytes that follow |
| ProtoStream.ClosureRoundTrip | contrib/squirrel/squirrel/sqobject.cpp:371-397 | the same for a whole stream with its header and tail |
| ProtoSerialiser.WriteObject | contrib/squirrel/squirrel/sqobject.cpp:313-334 | writes every value but a reference, which it refuses |
| ProtoSerialiser.ReadObject | contrib/squirrel/squirrel/sqobject.cpp:336-369 | reads a value or fails, and takes exactly its bytes |
| ProtoSerialiser.Save | contrib/squirrel/squirrel/sqobject.cpp:408-469 | the step-by-step writer produces the stream, and refuses exactly functions that hold references |
| ProtoSerialiser.Load | contrib/squirrel/squirrel/sqobject.cpp:471-551 | the step-by-step reader is the inverse's parser: it succeeds, fails and consumes as that does |
| ProtoSerialiser.SaveClosure | contrib/squirrel/squirrel/sqobject.cpp:371-380 | header, function and tail |
| ProtoSerialiser.LoadClosure | contrib/squirrel/squirrel/sqobject.cpp:382-397 | checks the header and the tail around the function |
| ProtoSerialiser.SaveThenLoad | contrib/squirrel/squirrel/sqobject.cpp:371-551 | end to end: save, then load with anything behind it, gives the function back and leaves the rest |
| Cobs.UnstuffStuffed | src/cobs.cpp:9-68 | decoding an encoded message gives the message and one zero |
| Cobs.StuffedHasNoZero | src/cobs.cpp:9-49 | no zero before the terminator |
| Cobs.StuffedRuns | src/cobs.cpp:9-49 | bytes up to a zero go behind their number and one, and the zero is left out; 254 bytes without a zero go behind 0xFF and nothing is left out |
| Cobs.StuffedLength | src/cobs.cpp:9-49 | one byte more, and one for every 254 |
| Cobs.PacketOf | src/cobs.cpp:9-68 | all three for the packet that goes over the wire |
| Cobs.Encode | src/cobs.cpp:9-49 | the back-patching encoder computes the packet |
| Cobs.Decode | src/cobs.cpp:51-68 | the decoder computes the decoding of any bytes, well formed or not |
| Cobs.StuffData | firmware/arduino_nano/swdinterface/swdinterface.ino:79-102 | the firmware's pointer encoder writes the same packet within its buffer |
| Cobs.UnStuffData | firmware/arduino_nano/swdinterface/swdinterface.ino:49-70 | the firmware's pointer decoder computes the same decoding and its length |
| Cobs.ReadPacketOf | src/hardwareinterface.cpp:127-188 | the first frame of a stream that starts with a packet is that packet |
| Cobs.ConcatenatedPackets | src/hardwareinterface.cpp:127-188 | packets sent one after the other are read one after the other |
| Cobs.HardwareInterface.WritePacket | src/hardwareinterface.cpp:84-125 | sends the packet of the data |
| Cobs.HardwareInterface.ReadPacket | src/hardwareinterface.cpp:127-188 | reads up to the first zero, decodes and drops the trailing zero; nothing is lost of what follows |
| Protocol.WordRoundTrip | firmware/arduino_nano/swdinterface/swdinterface.ino:110-117 | a 32-bit word survives being sent lowest byte first |
| Protocol.WordsOf | targets/targetfuncs.nut:120-184 | each command has its words where the firmware looks for them |
| Protocol.ResultsGrow | firmware/arduino_nano/swdinterface/swdinterface.ino:240-393 | the results collected so far, and those of the next command, are in the first answer |
| Protocol.OneAnswerIff | firmware/arduino_nano/swdinterface/swdinterface.ino:338-365 | a packet is answered once if and only if no wait that it gets to runs out of tries; that answer is what running the commands in order up to the first failure gives |
| Protocol.NoTimeOutFinishes | firmware/arduino_nano/swdinterface/swdinterface.ino:240-393 | without a time-out every packet is dealt with |
| Protocol.HopelessWaitNeverEnds | firmware/arduino_nano/swdinterface/swdinterface.ino:338-365 | a wait for bits that never come is answered with time-outs without end: for every set of targets closed under reading that memory in which the read succeeds and never has the bits, whatever other targets do |
| Protocol.AllSetIff | firmware/arduino_nano/swdinterface/swdinterface.ino:346 | the test of a wait holds exactly if the word has every bit of the mask |
| Protocol.UnchangedWordNeverEnds | firmware/arduino_nano/swdinterface/swdinterface.ino:338-365 | in particular a wait on a word that stays as it is and lacks one bit of the mask, whatever else the target does |
| Protocol.ShortAnswersFit | firmware/arduino_nano/swdinterface/swdinterface.ino:145-159 | answers two bytes shorter than the buffer always fit it |
| Protocol.ResultsArePrefixed | firmware/arduino_nano/swdinterface/swdinterface.ino:240-393 | the results of a list of commands are those of its first commands followed by those of the rest, with the same status |
| Firmware.Programmer.QueueReplyUInt32 | firmware/arduino_nano/swdinterface/swdinterface.ino:145-159 | queues a word exactly when there is room for it and one byte more |
| Firmware.Programmer.SendReply | firmware/arduino_nano/swdinterface/swdinterface.ino:169-180 | sends one packet, the status and all that was queued, and starts afresh |
| Firmware.Programmer.GetUInt32 | firmware/arduino_nano/swdinterface/swdinterface.ino:110-117 | the word at any place of a buffer |
| Firmware.Programmer.PollMemory | firmware/arduino_nano/swdinterface/swdinterface.ino:342-360 | reads until all bits of the mask are set, a read fails, or the tries are used up |
| Firmware.Programmer.WaitMemTrue | firmware/arduino_nano/swdinterface/swdinterface.ino:339-365 | after a time-out the host is told, the results are dropped and the command stays next |
| Firmware.Programmer.Execute | firmware/arduino_nano/swdinterface/swdinterface.ino:245-388 | dispatches on the command byte: the target, the reply, the status and the length that belong to that command, which the laws of ExchangeLaws say in terms of the probe |
| Firmware.Programmer.ReceiveByte | firmware/arduino_nano/swdinterface/swdinterface.ino:215-227 | collects a packet; a full buffer is dropped and the host told |
| Firmware.Programmer.Dispatch | firmware/arduino_nano/swdinterface/swdinterface.ino:236-393 | whenever serving the packet comes to an end and its replies fit the buffer: exactly its commands in order, the answers of the specification, time-outs included, and nothing else sent |
| Firmware.Programmer.PacketComplete | firmware/arduino_nano/swdinterface/swdinterface.ino:228-395 | decodes the packet and dispatches it |
| Firmware.Programmer.Loop | firmware/arduino_nano/swdinterface/swdinterface.ino:205-397 | a packet received byte by byte is served once, at its zero |
| HostSession.Queues.QueueUInt32 | src/squirrel_funcs.cpp:127-150 | a word at the end of the command queue, lowest byte first |
| HostSession.Queues.QueueCommand | targets/targetfuncs.nut:81-184 | the script functions queue the bytes of their command |
| HostSession.Queues.QueueAll | targets/targetfuncs.nut:81-184 | a list of commands is queued in order |
| HostSession.Queues.ReadReply | src/squirrel_funcs.cpp:163-190 | the reply is in the result queue once the status is popped |
| HostSession.Queues.PopUInt32 | src/squirrel_funcs.cpp:193-213 | takes a word if there are four bytes, else gives 0 and takes nothing |
| HostSession.Queues.PopQueuedWord | src/squirrel_funcs.cpp:193-213 | a word the programmer queued is popped unchanged |
| HostSession.Exchange | src/squirrel_funcs.cpp:154-173 | end to end, at any time in a session: the programmer runs exactly the queued commands in order up to the first failure, and the host has the status followed by the results of those that succeeded |
| ExchangeLaws.ReadsAnswer | firmware/arduino_nano/swdinterface/swdinterface.ino:258-325 | for every probe: a connect or a read answers with the status of the probe and, if that is OK, the four bytes of the word it gave, the lowest first |
| ExchangeLaws.ResetSetsTheLine | firmware/arduino_nano/swdinterface/swdinterface.ino:253-257 | a reset command asserts the line of the target if its byte is not zero and releases it if it is |
| ExchangeLaws.FixedAnswers | firmware/arduino_nano/swdinterface/swdinterface.ino:249-252 | an unknown command ends the packet with status 5 and the bytes of 0xDEADBEEF, the identification is version 1 and 64 bytes |
| ExchangeLaws.WriteThenReadMemory | firmware/arduino_nano/swdinterface/swdinterface.ino:313-377 | for every probe: a packet that writes d at a and reads b answers with what the probe reads at b after it wrote d at a, or with the status of the one that failed |
| ExchangeLaws.WriteThenReadAP | firmware/arduino_nano/swdinterface/swdinterface.ino:299-325 | the same for access port registers |
| ExchangeLaws.WriteThenReadDP | firmware/arduino_nano/swdinterface/swdinterface.ino:273-298 | the same for debug port registers |
| ExchangeLaws.WaitAnswers | firmware/arduino_nano/swdinterface/swdinterface.ino:338-365 | a wait succeeds at the first of a hundred reads that shows every bit of the mask, fails at the first read that fails before that, and otherwise answers with a time-out |
| ExchangeLaws.PacketReadsLastWritten | firmware/arduino_nano/swdinterface/swdinterface.ino:236-393 | for every probe whose memory reads back what was written: a packet of reads, writes and waits that succeeds answers with the words that were written last before each read, in the order of the reads, and leaves in memory what was written last |
| TargetFunctions.WordsAnswer | targets/targetfuncs.nut:325-352 | a packet of consecutive reads answers with their words in order, or with the status of the first that fails |
| TargetFunctions.Session.Connect | targets/targetfuncs.nut:93-117 | end to end: the identification that the first successful of ten attempts reads, or -1 if none succeeds |
| TargetFunctions.Session.PollAP | targets/targetfuncs.nut:258-277 | end to end: success at the first of a hundred reads that shows every bit of the mask, the status of the first that fails before that, or a time-out |
| TargetFunctions.Session.ReadMemoryWords | targets/targetfuncs.nut:325-352 | end to end: up to six words, each what the probe read at its own address after the ones before, or the status of the first read that fails; more are refused without an exchange |
| SerialWire.CalcParity | firmware/arduino_nano/swdinterface/low_level.cpp:16-25 | the exclusive-or fold is the parity of all 32 bits |
| SerialWire.HeaderIsDecoded | firmware/arduino_nano/swdinterface/low_level.cpp:168-180 | a target decodes the header to the request, and to none at all if any single bit is wrong |
| SerialWire.HeaderNumber | firmware/arduino_nano/swdinterface/low_level.cpp:168-180 | the header as the number that goes out from its lowest bit on: 0x81 and a bit each for port, direction, the two address bits and the parity of these four |
| SerialWire.SWDInterfaceBase.WriteWord32 | firmware/arduino_nano/swdinterface/low_level.cpp:94-101 | 32 bits, lowest first |
| SerialWire.SWDInterfaceBase.ReadWord32 | firmware/arduino_nano/swdinterface/low_level.cpp:190-196 | the word whose bits came in lowest first |
| SerialWire.SWDInterfaceBase.DoReadTransaction | firmware/arduino_nano/swdinterface/low_level.cpp:148-240 | header on the wire, the target's answer, and a failure if the parity of an acknowledged word is wrong |
| SerialWire.SWDInterfaceBase.DoWriteTransaction | firmware/arduino_nano/swdinterface/low_level.cpp:242-321 | header, then after an OK the word and its parity, on the wire and at the target |
| AccessPort.ArduinoSWDInterface.ReadWithRetries | firmware/arduino_nano/swdinterface/mid_level.cpp:126-135 | at most ten attempts, all but the last answered WAIT, and the status and word of the last |
| AccessPort.ArduinoSWDInterface.WriteWithRetries | firmware/arduino_nano/swdinterface/mid_level.cpp:102-117 | the same for writes |
| AccessPort.SelectsIff | firmware/arduino_nano/swdinterface/mid_level.cpp:79-94 | masking an address gives the one selection with its bits 24 to 31 and 4 to 7 and no other |
| AccessPort.ArduinoSWDInterface.WriteDP | firmware/arduino_nano/swdinterface/mid_level.cpp:36-56 | a raw write; it leaves the port cache right if and only if it does not select something else than is cached |
| AccessPort.RawSelectMisleads | firmware/arduino_nano/swdinterface/mid_level.cpp:36-138 | for every raw write to SELECT of anything but what is cached there is such a target and a run in which it makes the cache wrong: selecting the port of an address, the write, and then a read of that address that goes to what the write selected |
| AccessPort.ArduinoSWDInterface.ReadDP | firmware/arduino_nano/swdinterface/mid_level.cpp:58-77 | a read of a debug port register changes no selection and gives the word of its last attempt |
| AccessPort.ArduinoSWDInterface.SelectAP | firmware/arduino_nano/swdinterface/mid_level.cpp:79-94 | after success bits 24 to 31 and 4 to 7 of what the target has selected are those of the address and all others are zero, by a write or by the cache |
| AccessPort.ArduinoSWDInterface.WriteAP | firmware/arduino_nano/swdinterface/mid_level.cpp:96-118 | success means one acknowledged write of the word to exactly that port, bank and register, bit by bit, and the target took nothing else |
| AccessPort.ArduinoSWDInterface.ReadAP | firmware/arduino_nano/swdinterface/mid_level.cpp:120-138 | success means an acknowledged read of exactly that register, bit by bit, before which the target took nothing, and the word is what the read buffer gave right after it |
| AccessPort.ArduinoSWDInterface.TryConnect | firmware/arduino_nano/swdinterface/mid_level.cpp:27-34 | nothing is taken to be selected after a connect, and the identification is the word that was read |
| AccessPort.ArduinoSWDInterface.WaitForMemory | firmware/arduino_nano/swdinterface/mid_level.cpp:141-157 | success means the memory port was read with its busy bit clear |
| AccessPort.OnlyLastIsTaken | firmware/arduino_nano/swdinterface/mid_level.cpp:96-138 | of a series of attempts a memory port takes none but the last, and that only if it acknowledged it |
| AccessPort.ArduinoSWDInterface.SetAddress | firmware/arduino_nano/swdinterface/mid_level.cpp:163-170 | control word, idle port and address, in this order: a memory port at address 0 is then set to accesses of 32 bits at exactly this address, and its memory is as it was |
| AccessPort.ArduinoSWDInterface.ReadMemory | firmware/arduino_nano/swdinterface/mid_level.cpp:159-173 | success means the word was read from the data register of a memory port set to 32 bits and this address; so a port that gives what it has gives what was written there last. The memory is never changed |
| AccessPort.ArduinoSWDInterface.WriteMemory | firmware/arduino_nano/swdinterface/mid_level.cpp:175-189 | success means that a memory port with its registers at 0x00, 0x04 and 0x0C has the word at this address and its other words as before, and failure that it has all of them as before |
| AccessPort.ArduinoSWDInterface.Run | firmware/arduino_nano/swdinterface/mid_level.cpp:27-189 | over every run without a raw write to SELECT the cache is invalid or right, and for every access port transaction bits 24 to 31 and 4 to 7 of the selection are those of the address it was meant for, all others are zero, and bits 2 and 3 are in the request |

## Left out

- Statements but for the declaration of a local, functions, classes, assignments and comma expressions in the compiler, and the lexer and parser: the model starts from a parsed expression.
- `%`, arithmetic overflow and floating point: operators are arbitrary partial functions on values and a heap they do not change. Because they are arbitrary, what `_OP_MOD` does with a failure is not part of this model.
- Metamethods, native calls, debug hooks and line information, tail calls and the optimiser's rule for RETURN.
- CompilerMain.ExpressionIsCompiledCorrectly: assumes that no JZ is fused with a comparison of another register, which `NoStrayJump` says and FusedJumpIsRightIff shows to be needed of each pair; expressions outside it are not claimed to be wrong in every case.
- FuncState.PeepholePreservesMeaning: promises nothing about the registers whose last write was fused away. Those are temporaries, unless a MOVE takes the target of an operation that sets a named local (NamedLocals.PeepholeKeepsLocals, and FirstLocalIsNeverSet for a program in which one does).
- HashTable.SQTable.NewSlot: a null key is an assertion failure in the original and a precondition here; weak references are not resolved, and Clone has no `_FAST_CLONE`.
- HashTable.SQTable.Next: an iteration in which the program changes the table between steps.
- Integers of the original are machine integers where the model has unbounded ones, except in the bytecode stream, the protocol and instruction operands, where widths are explicit.
- OpenOuters.SQVM.EnterFrame: the failure to grow the stack while a metamethod runs, and tail calls. `sq_reservestack`, which resizes the stack without relocating outers, is not part of the runs.
- Reference counts: outers and tables are never freed in the model, and a string that leaves the table keeps its number; release cascades and the sweep of `CollectGarbage` do not happen.
- Objects of the collector, of the reference table, of the string table and of delegation are numbered places in a sequence, so pointers between them are numbers; the hash table and the open outers are modelled with arrays and references.
- Generators.SQGenerator.Yield: a frame of at least one register that fits the stack is assumed to be running, as the machine sets it up; that the generator is the one of this frame is not checked.
- Generators.SQGenerator.Resume: EnterFrame is assumed to succeed; the return value of a generator and the instructions around it are not modelled.
- GcMark.SQSharedState.Mark: what an object refers to is given as a list; which fields of each kind of object that is, is not. Weak references and threads that are not on the chain are not modelled.
- ReferenceTable.RefTable.Release: releasing an object that is not held is an assertion failure in the original and a precondition here. `GetRefCount` of an object never added, which inserts a node with count 0, is outside.
- Delegation.SQTables.Get: tables only; userdata, instances and metamethods of the lookup are left out.
- HeapSort.Sort: a comparison that changes the array while it is sorted. HeapSort.SortByDefault says of arrays with floats, tables or instances when the sort succeeds, not in which order they end up.
- Rex.SQRex.MatchNode: what is given as next is assumed to come later in the pattern, as it does in every call the matcher makes. Where a pattern has repetitions or alternatives a failure to match promises nothing: the matcher does not backtrack. What captures hold, word boundaries, balanced pairs and the pattern parser are left out; a pattern is a tree instead of an array of nodes with successors.
- ProtoSerialiser.Load: a negative length or count is taken as a failure, while the original passes it to the allocator; a write that fails for another reason than its data is left out. Sizes are those of a 64-bit build with 32-bit floats.
- Firmware.Programmer.Loop: a packet whose service never ends, because a wait in it times out again and again, has no result here (its answers are those of `Protocol.Serve`). Packets that are not a list of whole commands are excluded, because the firmware would read past them; so are replies that overflow the buffer, whose bytes and words are dropped silently (`Protocol.RepliesFit`, with QueueReplyUInt32 saying when).
- HostSession.Exchange: no wait in the packet runs out of tries, and the serial line neither loses bytes nor times out. `executeCmdQueue` gives 0 even after a failed write or read.
- TargetFunctions.Session.ReadMemoryWords: an address is taken as the 32 bits that go over the line, and log messages are left out.
- ExchangeLaws.PacketReadsLastWritten: says nothing of a packet with a command that fails, nor of memory that changes by itself.
- CompilerLimits.LoadFits: floats are given as their bits.
- AccessPort.ArduinoSWDInterface.Run: the target is any device that changes SELECT only by an acknowledged write to it and keeps it through a read; sticky errors, `waitMemoryTrue` and the effect of a reset line on the debug port are not modelled. A connect may select anything.
- Pins, clock and delays: a transaction is the bits the programmer drives and the answer of the target.
- Qt, the serial port, command line, console, printing, logging, and the flash scripts for particular chips.
