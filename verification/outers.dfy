/** Captured variables: what closures, calls and stack growth do to them, without any list or pointer. */
module CapturedVariables {
  import opened Objects

  const MIN_STACK_OVERHEAD := 15

  /** A captured variable lives in a stack slot while it is open, and in its own cell from then on. */
  datatype Cell = Open(slot: nat) | Closed(value: SQObject)

  datatype CallInfo = CallInfo(prevstkbase: int, prevtop: int)

  datatype State = State(stack: seq<SQObject>, base: int, top: int, calls: seq<CallInfo>, cells: seq<Cell>)

  /** Each caller's frame reaches up to at least where the called frame starts, and all of them fit the stack. */
  predicate FramesOk(calls: seq<CallInfo>, base: int, top: int, size: int) {
    && 0 <= base <= top < size
    && (calls == [] || (
          var ci := calls[|calls| - 1];
          var callerBase := base - ci.prevstkbase;
          callerBase <= base <= callerBase + ci.prevtop && FramesOk(calls[..|calls| - 1], callerBase,
                                                                    callerBase + ci.prevtop, size)))
  }

  predicate Distinct(cells: seq<Cell>) {
    forall i, j :: 0 <= i < j < |cells| && cells[i].Open? ==> cells[i] != cells[j]
  }

  predicate Sound(s: State) {
    && FramesOk(s.calls, s.base, s.top, |s.stack|)
    && Distinct(s.cells)
    && forall i :: 0 <= i < |s.cells| && s.cells[i].Open? ==> s.cells[i].slot < |s.stack|
  }

  function Nulls(n: nat): seq<SQObject> {
    seq(n, _ => Null)
  }

  /** The value a closure that captured variable i reads. */
  function ReadCell(s: State, i: nat): SQObject
    requires i < |s.cells| && (s.cells[i].Open? ==> s.cells[i].slot < |s.stack|)
  {
    match s.cells[i]
    case Open(slot) => s.stack[slot]
    case Closed(v) => v
  }

  function Capture(s: State, slot: nat): State {
    if Open(slot) in s.cells then s else s.(cells := s.cells + [Open(slot)])
  }

  /** The variable of a slot that has been captured. */
  function CapturedAs(cells: seq<Cell>, slot: nat): (k: nat)
    requires Open(slot) in cells
    ensures k < |cells| && cells[k] == Open(slot)
  {
    if cells[0] == Open(slot) then 0 else 1 + CapturedAs(cells[1..], slot)
  }

  function CloseCell(stack: seq<SQObject>, c: Cell, from: int): Cell {
    if c.Open? && from <= c.slot < |stack| then Closed(stack[c.slot]) else c
  }

  function CloseFrom(s: State, from: int): State {
    s.(cells := seq(|s.cells|, i requires 0 <= i < |s.cells| => CloseCell(s.stack, s.cells[i], from)))
  }

  /** The size of the stack after a frame up to newtop was entered. */
  function Grown(size: nat, newtop: nat): nat {
    if newtop + MIN_STACK_OVERHEAD > size then newtop + 4 * MIN_STACK_OVERHEAD else size
  }

  function Enter(s: State, newbase: int, newtop: nat): State {
    s.(calls := s.calls + [CallInfo(newbase - s.base, s.top - s.base)], base := newbase, top := newtop,
       stack := s.stack + Nulls(Grown(|s.stack|, newtop) - |s.stack|))
  }

  /** Sets the slots from to..=last to null. */
  function Wiped(stack: seq<SQObject>, from: int, last: int): seq<SQObject> {
    seq(|stack|, k requires 0 <= k < |stack| => if from <= k <= last then Null else stack[k])
  }

  function Leave(s: State): State
    requires s.calls != []
  {
    var ci := s.calls[|s.calls| - 1];
    var base := s.base - ci.prevstkbase;
    var top := base + ci.prevtop;
    var closed := CloseFrom(s, s.base);
    State(Wiped(s.stack, top, s.top), base, top, s.calls[..|s.calls| - 1], closed.cells)
  }

  function WriteSlot(s: State, slot: nat, v: SQObject): State
    requires slot < |s.stack|
  {
    s.(stack := s.stack[slot := v])
  }

  /** A closure assigns to the variable it captured. */
  function WriteCell(s: State, i: nat, v: SQObject): State
    requires i < |s.cells| && (s.cells[i].Open? ==> s.cells[i].slot < |s.stack|)
  {
    match s.cells[i]
    case Open(slot) => WriteSlot(s, slot, v)
    case Closed(_) => s.(cells := s.cells[i := Closed(v)])
  }

  // ---------- runs ----------

  datatype Op =
    | CaptureOp(slot: nat)
    | CloseOp(from: int)
    | EnterOp(newbase: int, newtop: nat)
    | LeaveOp
    | WriteSlotOp(slot: nat, v: SQObject)
    | WriteCellOp(cell: nat, v: SQObject)

  /**
   * What running code respects: it names slots of its own frame and cells that exist, and calls from inside its
   * frame.
   */
  predicate Allowed(s: State, op: Op) {
    match op
    case CaptureOp(slot) => s.base <= slot < s.top
    case CloseOp(from) => s.base <= from
    case EnterOp(newbase, newtop) => s.base <= newbase <= s.top && newbase <= newtop
    case LeaveOp => s.calls != []
    case WriteSlotOp(slot, _) => s.base <= slot < s.top
    case WriteCellOp(i, _) => i < |s.cells|
  }

  function Apply(s: State, op: Op): State
    requires Sound(s) && Allowed(s, op)
  {
    match op
    case CaptureOp(slot) => Capture(s, slot)
    case CloseOp(from) => CloseFrom(s, from)
    case EnterOp(newbase, newtop) => Enter(s, newbase, newtop)
    case LeaveOp => Leave(s)
    case WriteSlotOp(slot, v) => WriteSlot(s, slot, v)
    case WriteCellOp(i, v) => WriteCell(s, i, v)
  }

  lemma {:induction false} FramesGrow(calls: seq<CallInfo>, base: int, top: int, size: int, more: int)
    requires FramesOk(calls, base, top, size) && size <= more
    ensures FramesOk(calls, base, top, more)
    decreases |calls|
  {
    if calls != [] {
      var ci := calls[|calls| - 1];
      FramesGrow(calls[..|calls| - 1], base - ci.prevstkbase, base - ci.prevstkbase + ci.prevtop, size, more);
    }
  }

  /**
   * Every operation keeps the frames in order and one open cell for a slot. The stack never shrinks, no cell is ever
   * lost.
   */
  lemma ApplyIsSound(s: State, op: Op)
    requires Sound(s) && Allowed(s, op)
    ensures var s' := Apply(s, op); Sound(s') && |s.stack| <= |s'.stack| && |s.cells| <= |s'.cells|
  {
    var s' := Apply(s, op);
    if op.EnterOp? {
      FramesGrow(s.calls, s.base, s.top, |s.stack|, |s'.stack|);
      assert s'.calls[..|s'.calls| - 1] == s.calls;
    }
  }

  /** The operation assigns to the variable i, through its slot or through a closure. */
  predicate Assigns(s: State, op: Op, i: nat)
    requires i < |s.cells|
  {
    match op
    case WriteSlotOp(slot, _) => s.cells[i] == Open(slot)
    case WriteCellOp(k, _) => k == i
    case _ => false
  }

  function Assigned(op: Op): SQObject {
    match op
    case WriteSlotOp(_, v) => v
    case WriteCellOp(_, v) => v
    case _ => Null
  }

  /** A captured variable has the value it was last assigned: calls, returns, growth and closing do not change it. */
  lemma ReadAfter(s: State, op: Op, i: nat)
    requires Sound(s) && Allowed(s, op) && i < |s.cells|
    ensures Sound(Apply(s, op)) && i < |Apply(s, op).cells|
    ensures ReadCell(Apply(s, op), i) == if Assigns(s, op, i) then Assigned(op) else ReadCell(s, i)
  {
    ApplyIsSound(s, op);
  }

  /** Leaving a frame closes exactly the variables at or above its base. */
  lemma LeaveCloses(s: State, i: nat)
    requires Sound(s) && s.calls != [] && i < |s.cells|
    ensures Leave(s).cells[i].Open? <==> s.cells[i].Open? && s.cells[i].slot < s.base
    ensures Leave(s).cells[i].Open? ==> Leave(s).cells[i] == s.cells[i] && s.cells[i].slot < Leave(s).top
  {
  }

  function RunOps(s: State, list: seq<Op>): State
    requires Sound(s) && AllAllowed(s, list)
    ensures Sound(RunOps(s, list)) && |s.cells| <= |RunOps(s, list).cells|
    decreases |list|
  {
    if list == [] then s
    else
      ApplyIsSound(s, list[0]);
      RunOps(Apply(s, list[0]), list[1..])
  }

  predicate AllAllowed(s: State, list: seq<Op>)
    requires Sound(s)
    decreases |list|
  {
    list == [] || (Allowed(s, list[0]) && (ApplyIsSound(s, list[0]); AllAllowed(Apply(s, list[0]), list[1..])))
  }

  /** The last value assigned to variable i by the list, starting from v. */
  function LastAssigned(s: State, list: seq<Op>, i: nat, v: SQObject): SQObject
    requires Sound(s) && AllAllowed(s, list) && i < |s.cells|
    decreases |list|
  {
    if list == [] then v
    else
      ApplyIsSound(s, list[0]);
      LastAssigned(Apply(s, list[0]), list[1..], i, if Assigns(s, list[0], i) then Assigned(list[0]) else v)
  }

  /** Over every run, all closures that captured a variable read what was last assigned to it. */
  lemma {:induction false} ReadsLastAssigned(s: State, list: seq<Op>, i: nat)
    requires Sound(s) && AllAllowed(s, list) && i < |s.cells|
    ensures ReadCell(RunOps(s, list), i) == LastAssigned(s, list, i, ReadCell(s, i))
    decreases |list|
  {
    if list != [] {
      ReadAfter(s, list[0], i);
      ReadsLastAssigned(Apply(s, list[0]), list[1..], i);
    }
  }

  // ---------- calls and returns ----------

  /** Entering a frame leaves all slots as they are, and room above its top. */
  lemma EnteredFrame(s: State, newbase: int, newtop: nat)
    ensures var e := Enter(s, newbase, newtop);
            && e.base == newbase && e.top == newtop && e.cells == s.cells && s.stack <= e.stack
            && newtop + MIN_STACK_OVERHEAD <= |e.stack| && |e.calls| == |s.calls| + 1 && e.calls[..|s.calls|] == s.calls
  {
  }

  /**
   * A call and its return: the caller's frame is back, its slots hold what they held, what is above them up to the
   * called frame's top is null, and a variable that was captured is open as before unless its slot was the callee's.
   */
  lemma EnterThenLeave(s: State, newbase: int, newtop: nat)
    requires Sound(s) && Allowed(s, EnterOp(newbase, newtop))
    ensures var t := Leave(Enter(s, newbase, newtop));
            && t.base == s.base && t.top == s.top && t.calls == s.calls && |s.stack| <= |t.stack| && newtop < |t.stack|
            && (forall k :: 0 <= k < s.top ==> t.stack[k] == s.stack[k])
            && (forall k :: s.top <= k <= newtop ==> t.stack[k] == Null)
            && |t.cells| == |s.cells|
            && (forall i :: 0 <= i < |s.cells| && s.cells[i].Open? && s.cells[i].slot < newbase ==>
                  t.cells[i] == s.cells[i])
  {
  }

  /** Every frame that the list enters it leaves, and d frames that were entered before. */
  predicate Returns(list: seq<Op>, d: nat)
    decreases |list|
  {
    if list == [] then d == 0
    else
      match list[0]
      case EnterOp(_, _) => Returns(list[1..], d + 1)
      case LeaveOp => d > 0 && Returns(list[1..], d - 1)
      case _ => Returns(list[1..], d)
  }

  /** t has the frame that is d levels up from that of s. */
  ghost predicate IsUp(s: State, d: nat, t: State)
    decreases d
  {
    if d == 0 then t.base == s.base && t.top == s.top && t.calls == s.calls
    else
      s.calls != [] &&
      var ci := s.calls[|s.calls| - 1];
      var base := s.base - ci.prevstkbase;
      IsUp(s.(base := base, top := base + ci.prevtop, calls := s.calls[..|s.calls| - 1]), d - 1, t)
  }

  /** What is up does not depend on anything but the frames. */
  lemma {:induction false} UpOfFrames(s: State, s': State, d: nat, t: State)
    requires s'.base == s.base && s'.top == s.top && s'.calls == s.calls && IsUp(s', d, t)
    ensures IsUp(s, d, t)
    decreases d
  {
    if d > 0 {
      var ci := s.calls[|s.calls| - 1];
      var base := s.base - ci.prevstkbase;
      UpOfFrames(s.(base := base, top := base + ci.prevtop, calls := s.calls[..|s.calls| - 1]),
                 s'.(base := base, top := base + ci.prevtop, calls := s.calls[..|s.calls| - 1]), d - 1, t);
    }
  }

  /** How far up a frame is after one operation. */
  lemma {:induction false} OneStepUp(s: State, op: Op, d: nat, t: State)
    requires Sound(s) && Allowed(s, op) && (op.LeaveOp? ==> d > 0)
    requires IsUp(Apply(s, op), if op.EnterOp? then d + 1 else if op.LeaveOp? then d - 1 else d, t)
    ensures IsUp(s, d, t)
  {
    var s1 := Apply(s, op);
    match op
    case EnterOp(newbase, newtop) =>
      assert s1.calls[..|s1.calls| - 1] == s.calls;
      UpOfFrames(s, s1.(base := s.base, top := s.top, calls := s.calls), d, t);
    case LeaveOp =>
      var ci := s.calls[|s.calls| - 1];
      var base := s.base - ci.prevstkbase;
      UpOfFrames(s.(base := base, top := base + ci.prevtop, calls := s.calls[..|s.calls| - 1]), s1, d - 1, t);
    case _ =>
      UpOfFrames(s, s1, d, t);
  }

  lemma {:induction false} RunComesBack(s: State, list: seq<Op>, d: nat)
    requires Sound(s) && AllAllowed(s, list) && Returns(list, d)
    ensures IsUp(s, d, RunOps(s, list))
    decreases |list|
  {
    hide Apply, Sound;
    if list != [] {
      ApplyIsSound(s, list[0]);
      var more := if list[0].EnterOp? then d + 1 else if list[0].LeaveOp? then d - 1 else d;
      RunComesBack(Apply(s, list[0]), list[1..], more);
      OneStepUp(s, list[0], d, RunOps(s, list));
    }
  }

  /** Over every run in which calls and returns balance, the frame at the end is the one at the start. */
  lemma {:induction false} BalancedRunKeepsFrame(s: State, list: seq<Op>)
    requires Sound(s) && AllAllowed(s, list) && Returns(list, 0)
    ensures var t := RunOps(s, list); t.base == s.base && t.top == s.top && t.calls == s.calls
  {
    RunComesBack(s, list, 0);
  }

  /** The operation closes the variable of the slot, if the slot has one. */
  predicate Closes(s: State, op: Op, slot: nat) {
    (op.CloseOp? && op.from <= slot) || (op.LeaveOp? && s.base <= slot)
  }

  predicate ClosesWithin(s: State, list: seq<Op>, slot: nat)
    requires Sound(s) && AllAllowed(s, list)
    decreases |list|
  {
    list != [] && (Closes(s, list[0], slot) || (ApplyIsSound(s, list[0]);
                                                ClosesWithin(Apply(s, list[0]), list[1..], slot)))
  }

  /** A variable stays in its slot until it is closed, and then never goes back. */
  lemma {:induction false} OpenUntilClosed(s: State, list: seq<Op>, i: nat, slot: nat)
    requires Sound(s) && AllAllowed(s, list) && i < |s.cells| && slot < |s.stack|
    ensures |s.cells| <= |RunOps(s, list).cells|
    ensures s.cells[i].Closed? ==> RunOps(s, list).cells[i].Closed?
    ensures s.cells[i] == Open(slot) ==> (RunOps(s, list).cells[i] == Open(slot) <==> !ClosesWithin(s, list, slot))
    decreases |list|
  {
    if list != [] {
      ApplyIsSound(s, list[0]);
      OpenUntilClosed(Apply(s, list[0]), list[1..], i, slot);
    }
  }

  /** Two captures of a slot share one variable if and only if nothing that was run in between closed it. */
  lemma {:induction false} SharedUntilClosed(s: State, slot: nat, list: seq<Op>)
    requires Sound(s) && Open(slot) in s.cells && AllAllowed(s, list)
    ensures var again := Capture(RunOps(s, list), slot).cells;
            Open(slot) in again && (CapturedAs(s.cells, slot) == CapturedAs(again, slot) <==>
                                    !ClosesWithin(s, list, slot))
  {
    var k, end := CapturedAs(s.cells, slot), RunOps(s, list);
    OpenUntilClosed(s, list, k, slot);
    var again := Capture(end, slot).cells;
    assert Open(slot) !in end.cells ==> again[|end.cells|] == Open(slot);
    var j := CapturedAs(again, slot);
    if end.cells[k] == Open(slot) { assert j == k; }
  }
}
