/** Generators: a frame that is put away and set up again somewhere else. */
module Generators {
  import opened Objects
  import opened CapturedVariables

  /** `this` is put away as a weak reference if it is an object, everything else as it is. */
  datatype Saved = Strong(v: SQObject) | Weak(v: SQObject)

  datatype Trap = Trap(stackbase: int, stacksize: int, ip: int, extarget: int)

  datatype Frame = Frame(ip: int, closure: SQObject, literals: int, etraps: nat, ncalls: int, root: bool, target: int,
                         prevstkbase: int, prevtop: int, resumed: bool)

  datatype GeneratorState = Running | Suspended | Dead

  datatype Kept = Kept(stack: seq<Saved>, ci: Frame, etraps: seq<Trap>, state: GeneratorState)

  /** A suspended generator keeps a frame and exactly its traps, a running one at most an old `this`. */
  predicate IsKept(g: Kept) {
    && (g.state == Suspended ==> g.stack != [] && g.ci.etraps == |g.etraps|)
    && (g.state == Running ==> g.etraps == [] && forall n :: 0 < n < |g.stack| ==> g.stack[n] == Strong(Null))
  }

  datatype Thread = Thread(stack: seq<SQObject>, base: int, top: int, calls: seq<Frame>, traps: seq<Trap>)

  /**
   * A frame of at least one register, `this`, that fits the stack, with its exception traps on top of the trap stack.
   */
  predicate HasFrame(v: Thread) {
    0 <= v.base < v.top < |v.stack| && v.calls != [] && Current(v).etraps <= |v.traps|
  }

  function Current(v: Thread): Frame
    requires v.calls != []
  {
    v.calls[|v.calls| - 1]
  }

  function Shifted(t: Trap, d: int): Trap {
    t.(stackbase := t.stackbase + d, stacksize := t.stacksize + d)
  }

  /** The last k traps, the last one first, moved by d. */
  function Popped(traps: seq<Trap>, k: nat, d: int): seq<Trap>
    requires k <= |traps|
  {
    seq(k, i requires 0 <= i < k => Shifted(traps[|traps| - 1 - i], d))
  }

  lemma PoppedNext(traps: seq<Trap>, k: nat, d: int)
    requires k < |traps|
    ensures Popped(traps, k + 1, d) == Popped(traps, k, d) + [Shifted(traps[|traps| - 1 - k], d)]
  {
  }

  function Moved(traps: seq<Trap>, d: int): seq<Trap> {
    seq(|traps|, i requires 0 <= i < |traps| => Shifted(traps[i], d))
  }

  /** Popping traps that were popped before brings them back in order. */
  lemma PoppedTwice(others: seq<Trap>, traps: seq<Trap>, k: nat, d: int, d': int)
    requires k <= |traps|
    ensures Popped(others + Popped(traps, k, d), k, d') == Moved(traps[|traps| - k..], d + d')
  {
    var p := Popped(traps, k, d);
    forall i | 0 <= i < k ensures Popped(others + p, k, d')[i] == Moved(traps[|traps| - k..], d + d')[i] {
      assert (others + p)[|others + p| - 1 - i] == p[k - 1 - i] == Shifted(traps[|traps| - k + i], d);
      var t := traps[|traps| - k..][i];
      assert Popped(others + p, k, d')[i] == Shifted((others + p)[|others + p| - 1 - i], d');
      assert Shifted(Shifted(t, d), d') == Shifted(t, d + d');
    }
  }

  function SaveThis(v: SQObject): Saved {
    if v.Ref? || v.String? then Weak(v) else Strong(v)
  }

  /** What a saved value is worth: an object that has died in between is null. */
  function Restored(s: Saved, alive: bool): SQObject {
    if s.Weak? && !alive then Null else s.v
  }

  function SavedRegisters(v: Thread, target: nat): (r: seq<Saved>)
    requires HasFrame(v)
    ensures |r| == v.top - v.base
  {
    seq(v.top - v.base, n requires 0 <= n < v.top - v.base =>
      if n == 0 then SaveThis(v.stack[v.base]) else if n < target then Strong(v.stack[v.base + n]) else Strong(Null))
  }

  lemma SavedNext(v: Thread, n: nat)
    requires HasFrame(v) && 1 <= n < v.top - v.base
    ensures SavedRegisters(v, n + 1) == SavedRegisters(v, n)[n := Strong(v.stack[v.base + n])]
  {
  }

  lemma SavedFirst(g: Kept, v: Thread, target: nat)
    requires HasFrame(v) && IsKept(g) && g.state == Running && target <= 1
    ensures var size := v.top - v.base;
            (if |g.stack| > size then g.stack[..size] else g.stack + seq(size - |g.stack|, _ => Strong(Null)))
              [0 := SaveThis(v.stack[v.base])] == SavedRegisters(v, target)
  {
  }

  /** The registers, frames and exception traps of a thread. */
  class CallStack {
    var stack: seq<SQObject>
    var stackbase: int
    var top: int
    var callsstack: seq<Frame>
    var etraps: seq<Trap>

    constructor (v: Thread)
      ensures State() == v
    {
      stack, stackbase, top, callsstack, etraps := v.stack, v.base, v.top, v.calls, v.traps;
    }

    function State(): Thread
      reads this
    {
      Thread(stack, stackbase, top, callsstack, etraps)
    }

    /** A frame without captured variables: those are the matter of OpenOuters. */
    method EnterFrame(newbase: int, newtop: nat)
      requires 0 <= top
      modifies this
      ensures State() == Entered(old(State()), newbase, newtop)
    {
      callsstack := callsstack + [Frame(0, Null, 0, 0, 1, false, 0, newbase - stackbase, top - stackbase, false)];
      stackbase, top := newbase, newtop;
      if newtop + MIN_STACK_OVERHEAD > |stack| {
        stack := stack + Nulls(newtop + 4 * MIN_STACK_OVERHEAD - |stack|);
      } else {
        assert stack == stack + Nulls(0);
      }
    }
  }

  /** The part of a thread that captured variables are about. */
  function Frames(v: Thread): State {
    State(v.stack, v.base, v.top, seq(|v.calls|, i requires 0 <= i < |v.calls| =>
      CallInfo(v.calls[i].prevstkbase, v.calls[i].prevtop)), [])
  }

  /** EnterFrame as it is there, in a thread whose frames say more. */
  function Entered(v: Thread, newbase: int, newtop: nat): Thread {
    var s := Enter(Frames(v), newbase, newtop);
    var ci := s.calls[|s.calls| - 1];
    Thread(s.stack, s.base, s.top, v.calls + [NewFrame(ci)], v.traps)
  }

  function NewFrame(ci: CallInfo): Frame {
    Frame(0, Null, 0, 0, 1, false, 0, ci.prevstkbase, ci.prevtop, false)
  }

  lemma EnteredIsEnter(v: Thread, newbase: int, newtop: nat)
    ensures Frames(Entered(v, newbase, newtop)) == Enter(Frames(v), newbase, newtop)
  {
    var s, e := Enter(Frames(v), newbase, newtop), Entered(v, newbase, newtop);
    assert Frames(e).calls == s.calls;
  }

  // ---------- what Yield and Resume do ----------

  function YieldedGenerator(g: Kept, v: Thread, target: nat): Kept
    requires HasFrame(v)
  {
    Kept(SavedRegisters(v, target), Current(v).(resumed := false),
         g.etraps + Popped(v.traps, Current(v).etraps, -v.base), Suspended)
  }

  function YieldedThread(v: Thread): Thread
    requires HasFrame(v)
  {
    v.(stack := Wiped(v.stack, v.base, v.top - 1), traps := v.traps[..|v.traps| - Current(v).etraps])
  }

  function RestoredRegisters(saved: seq<Saved>, alive: bool): (r: seq<SQObject>)
    requires saved != []
    ensures |r| == |saved|
  {
    seq(|saved|, n requires 0 <= n < |saved| => if n == 0 then Restored(saved[0], alive) else saved[n].v)
  }

  function ResumedCall(g: Kept, v: Thread, target: int): Frame {
    Frame(g.ci.ip, g.ci.closure, g.ci.literals, g.ci.etraps, g.ci.ncalls, g.ci.root, target, v.top - v.base,
          v.top - v.base, true)
  }

  function ResumedThread(g: Kept, v: Thread, target: int, alive: bool): Thread
    requires g.stack != [] && 0 <= v.top && v.top < |v.stack| && g.ci.etraps <= |g.etraps|
  {
    var e := Entered(v, v.top, v.top + |g.stack|);
    e.(calls := v.calls + [ResumedCall(g, v, target)], traps := v.traps + Popped(g.etraps, g.ci.etraps, v.top),
       stack := e.stack[..v.top] + RestoredRegisters(g.stack, alive) + e.stack[v.top + |g.stack|..])
  }

  function ResumedGenerator(g: Kept): Kept
    requires g.stack != [] && g.ci.etraps <= |g.etraps|
  {
    g.(stack := [g.stack[0]] + seq(|g.stack| - 1, _ => Strong(Null)), etraps := g.etraps[..|g.etraps| - g.ci.etraps],
       state := Running)
  }

  class SQGenerator {
    var stack: seq<Saved>
    var ci: Frame
    var etraps: seq<Trap>
    var state: GeneratorState

    ghost predicate Valid()
      reads this
    {
      IsKept(State())
    }

    constructor ()
      ensures Valid() && State().stack == [] && State().etraps == [] && State().state == Running
    {
      stack, etraps, state := [], [], Running;
      ci := Frame(0, Null, 0, 0, 1, false, 0, 0, 0, false);
    }

    function State(): Kept
      reads this
    {
      Kept(stack, ci, etraps, state)
    }

    method Kill()
      requires Valid()
      modifies this
      ensures Valid() && State() == old(State()).(stack := [], state := Dead)
    {
      state := Dead;
      stack := [];
    }

    /** Puts the running frame away. The result is false, and nothing changes, unless the generator runs. */
    method Yield(v: CallStack, target: nat) returns (ok: bool)
      requires Valid() && HasFrame(v.State()) && target <= v.top - v.stackbase
      modifies this, v
      ensures Valid() && (ok <==> old(state) == Running)
      ensures !ok ==> State() == old(State()) && v.State() == old(v.State())
      ensures ok ==> State() == YieldedGenerator(old(State()), old(v.State()), target)
      ensures ok ==> v.State() == YieldedThread(old(v.State()))
    {
      if state == Suspended || state == Dead { return false; }
      var size := v.top - v.stackbase;
      KeepRegisters(v, target, size);
      Wipe(v, size);
      PutTrapsAway(v);
      state := Suspended;
      ok := true;
    }

    method KeepRegisters(v: CallStack, target: nat, size: nat)
      requires Valid() && state == Running && HasFrame(v.State()) && target <= size == v.top - v.stackbase
      modifies `stack
      ensures stack == SavedRegisters(v.State(), target)
    {
      hide SavedRegisters, IsKept;
      SavedFirst(State(), v.State(), 0);
      SavedFirst(State(), v.State(), 1);
      stack := if |stack| > size then stack[..size] else stack + seq(size - |stack|, _ => Strong(Null));
      stack := stack[0 := SaveThis(v.stack[v.stackbase])];
      var n := 1;
      while n < target
        invariant (1 <= n <= target || (target == 0 && n == 1)) && |stack| == size
        invariant stack == SavedRegisters(v.State(), if target == 0 then 0 else n)
      {
        SavedNext(v.State(), n);
        stack := stack[n := Strong(v.stack[v.stackbase + n])];
        n := n + 1;
      }
    }

    static method Wipe(v: CallStack, size: nat)
      requires 0 <= v.stackbase && v.stackbase + size <= |v.stack|
      modifies v`stack
      ensures v.stack == Wiped(old(v.stack), v.stackbase, v.stackbase + size - 1)
    {
      var j := 0;
      while j < size
        invariant 0 <= j <= size && |v.stack| == |old(v.stack)|
        invariant forall k :: 0 <= k < |v.stack| ==> v.stack[k] == if v.stackbase <= k < v.stackbase + j then Null
                  else old(v.stack)[k]
      {
        v.stack := v.stack[v.stackbase + j := Null];
        j := j + 1;
      }
    }

    method PutTrapsAway(v: CallStack)
      requires v.callsstack != [] && v.callsstack[|v.callsstack| - 1].etraps <= |v.etraps|
      modifies this`ci, this`etraps, v`etraps
      ensures var ci0 := v.callsstack[|v.callsstack| - 1];
              && ci == ci0.(resumed := false) && etraps == old(etraps) + Popped(old(v.etraps), ci0.etraps, -v.stackbase)
              && v.etraps == old(v.etraps)[..|old(v.etraps)| - ci0.etraps]
    {
      ci := v.callsstack[|v.callsstack| - 1].(resumed := false);
      var i := 0;
      while i < ci.etraps
        invariant 0 <= i <= ci.etraps <= |old(v.etraps)| && ci == v.callsstack[|v.callsstack| - 1].(resumed := false)
        invariant v.etraps == old(v.etraps)[..|old(v.etraps)| - i]
        invariant etraps == old(etraps) + Popped(old(v.etraps), i, -v.stackbase)
      {
        PoppedNext(old(v.etraps), i, -v.stackbase);
        etraps := etraps + [v.etraps[|v.etraps| - 1]];
        v.etraps := v.etraps[..|v.etraps| - 1];
        var et := etraps[|etraps| - 1];
        etraps := etraps[|etraps| - 1 := et.(stackbase := et.stackbase - v.stackbase,
                                             stacksize := et.stacksize - v.stackbase)];
        i := i + 1;
      }
    }

    /**
     * Sets the frame up on top of the stack of v. alive tells whether the saved `this` still exists.
     * The result is false, and nothing changes, unless the generator is suspended.
     */
    method Resume(v: CallStack, target: int, alive: bool) returns (ok: bool)
      requires Valid() && 0 <= v.top < |v.stack|
      modifies this, v
      ensures Valid() && (ok <==> old(state) == Suspended)
      ensures !ok ==> State() == old(State()) && v.State() == old(v.State())
      ensures ok ==>
              v.State() == ResumedThread(old(State()), old(v.State()), target, alive) &&
              State() == ResumedGenerator(old(State()))
    {
      if state == Dead || state == Running { return false; }
      hide RestoredRegisters, Popped, ResumedCall, Entered;
      var newbase := v.top;
      TakeFrameBack(v, target);
      TakeTrapsBack(v, newbase);
      TakeRegistersBack(v, alive);
      state := Running;
      ok := true;
    }

    method TakeFrameBack(v: CallStack, target: int)
      requires 0 <= v.top
      modifies v
      ensures var was := old(v.State());
              v.State() == Entered(was, was.top, was.top + |stack|).(calls := was.calls +
                                                                     [ResumedCall(State(), was, target)])
      ensures v.stackbase == old(v.top) && v.etraps == old(v.etraps) && v.stackbase + |stack| < |v.stack|
    {
      var size := |stack|;
      v.EnterFrame(v.top, v.top + size);
      var last := |v.callsstack| - 1;
      v.callsstack := v.callsstack[last := v.callsstack[last].(
        resumed := true, target := target, closure := ci.closure, ip := ci.ip, literals := ci.literals,
        ncalls := ci.ncalls, etraps := ci.etraps, root := ci.root)];
    }

    method TakeTrapsBack(v: CallStack, newbase: int)
      requires ci.etraps <= |etraps|
      modifies this`etraps, v`etraps
      ensures v.etraps == old(v.etraps) + Popped(old(etraps), ci.etraps, newbase) &&
              etraps == old(etraps)[..|old(etraps)| - ci.etraps]
    {
      var i := 0;
      while i < ci.etraps
        invariant 0 <= i <= ci.etraps <= |old(etraps)| && etraps == old(etraps)[..|old(etraps)| - i]
        invariant v.etraps == old(v.etraps) + Popped(old(etraps), i, newbase)
      {
        PoppedNext(old(etraps), i, newbase);
        v.etraps := v.etraps + [etraps[|etraps| - 1]];
        etraps := etraps[..|etraps| - 1];
        var et := v.etraps[|v.etraps| - 1];
        v.etraps := v.etraps[|v.etraps| - 1 := et.(stackbase := et.stackbase + newbase,
                                                   stacksize := et.stacksize + newbase)];
        i := i + 1;
      }
    }

    method TakeRegistersBack(v: CallStack, alive: bool)
      requires stack != [] && 0 <= v.stackbase && v.stackbase + |stack| <= |v.stack|
      modifies this`stack, v`stack
      ensures stack == [old(stack)[0]] + seq(|old(stack)| - 1, _ => Strong(Null))
      ensures v.stack == old(v.stack)[..v.stackbase] + RestoredRegisters(old(stack), alive) +
              old(v.stack)[v.stackbase + |old(stack)|..]
    {
      var size := |stack|;
      v.stack := v.stack[v.stackbase := Restored(stack[0], alive)];
      var n := 1;
      while n < size
        invariant 1 <= n <= size == |stack| == |old(stack)| && |v.stack| == |old(v.stack)|
        invariant forall k :: 0 <= k < size ==> stack[k] == if 0 < k < n then Strong(Null) else old(stack)[k]
        invariant forall k :: 0 <= k < |v.stack| ==>
          v.stack[k] == if k == v.stackbase then Restored(old(stack)[0], alive)
            else if v.stackbase < k < v.stackbase + n then old(stack)[k - v.stackbase].v else old(v.stack)[k]
      {
        v.stack := v.stack[v.stackbase + n := stack[n].v];
        stack := stack[n := Strong(Null)];
        n := n + 1;
      }
    }
  }

  // ---------- a frame survives ----------

  /**
   * r is w with a frame on top: the frame that yielded on v, with its registers below target, `this` if it is still
   * alive, its instruction pointer, and its exception traps in their order, moved to the new base. It returns to the
   * frame of w, into register dest. Everything else on w is as it was. So it can yield again.
   */
  ghost predicate Survives(v: Thread, target: nat, w: Thread, dest: int, alive: bool, r: Thread)
    requires HasFrame(v) && 0 <= w.top < |w.stack| && 0 < target <= v.top - v.base
  {
    && HasFrame(r) && r.base == w.top && r.top - r.base == v.top - v.base
    && RegistersSurvive(v, target, alive, r.stack[r.base..r.top]) && r.stack[..w.top] == w.stack[..w.top]
    && |r.calls| == |w.calls| + 1 && r.calls[..|w.calls|] == w.calls && SameCall(Current(v), Current(r))
    && Current(r).target == dest
    && r.base - Current(r).prevstkbase == w.base && r.base - Current(r).prevstkbase + Current(r).prevtop == w.top
    && TrapsSurvive(v, w, r)
  }

  /** The function, where it goes on, and what belongs to it. */
  predicate SameCall(a: Frame, b: Frame) {
    && b.ip == a.ip && b.closure == a.closure && b.literals == a.literals && b.ncalls == a.ncalls && b.root == a.root
    && b.etraps == a.etraps
  }

  ghost predicate RegistersSurvive(v: Thread, target: nat, alive: bool, registers: seq<SQObject>)
    requires HasFrame(v) && 0 < target <= v.top - v.base
  {
    && |registers| == v.top - v.base
    && (forall n :: 0 < n < target ==> registers[n] == v.stack[v.base + n])
    && (forall n :: target <= n < |registers| ==> registers[n] == Null)
    && registers[0] == (if !alive && (v.stack[v.base].Ref? || v.stack[v.base].String?) then Null else v.stack[v.base])
  }

  /** The traps of the frame are on top of those of w, in their order, each for the same code at the new base. */
  ghost predicate TrapsSurvive(v: Thread, w: Thread, r: Thread)
    requires HasFrame(v)
  {
    var n, k, d := |w.traps|, Current(v).etraps, w.top - v.base;
    && |r.traps| == n + k && r.traps[..n] == w.traps
    && forall i :: n <= i < n + k ==> SameTrap(v.traps[|v.traps| - k + i - n], r.traps[i], d)
  }

  predicate SameTrap(was: Trap, now: Trap, d: int) {
    && now.stackbase == was.stackbase + d && now.stacksize == was.stacksize + d
    && now.ip == was.ip && now.extarget == was.extarget
  }

  lemma RegistersAreRestored(g: Kept, v: Thread, target: nat, alive: bool)
    requires HasFrame(v) && 0 < target <= v.top - v.base
    ensures RegistersSurvive(v, target, alive, RestoredRegisters(YieldedGenerator(g, v, target).stack, alive))
  {
    var saved := SavedRegisters(v, target);
    assert saved[0] == SaveThis(v.stack[v.base]);
    assert RestoredRegisters(saved, alive)[0] == Restored(saved[0], alive);
  }

  lemma FrameSurvives(g: Kept, v: Thread, w: Thread, target: nat, dest: int, alive: bool)
    requires HasFrame(v) && 0 <= w.top < |w.stack| && 0 < target <= v.top - v.base
    ensures var y := YieldedGenerator(g, v, target);
            && Survives(v, target, w, dest, alive, ResumedThread(y, w, dest, alive))
            && ResumedGenerator(y).etraps == g.etraps
  {
    hide RegistersSurvive, SavedRegisters, RestoredRegisters;
    var y, k := YieldedGenerator(g, v, target), Current(v).etraps;
    var r := ResumedThread(y, w, dest, alive);
    assert y.etraps[..|y.etraps| - k] == g.etraps;
    PoppedTwice(g.etraps, v.traps, k, -v.base, w.top);
    RegistersAreRestored(g, v, target, alive);
    assert r.stack[r.base..r.top] == RestoredRegisters(y.stack, alive);
  }

  /** When the resumed frame ends, the caller's frame is back with its registers, and the resumed one is cleared. */
  lemma EndGivesCallerBack(v: Thread, target: nat, w: Thread, dest: int, alive: bool, r: Thread)
    requires HasFrame(v) && 0 <= w.top < |w.stack| && 0 < target <= v.top - v.base
    requires Survives(v, target, w, dest, alive, r)
    ensures var t := Leave(Frames(r));
            && t.base == w.base && t.top == w.top && t.calls == Frames(w).calls
            && t.stack[..w.top] == w.stack[..w.top] && forall k :: w.top <= k <= r.top ==> t.stack[k] == Null
  {
    assert forall k :: 0 <= k < w.top ==> r.stack[k] == r.stack[..w.top][k] == w.stack[k];
    assert forall i :: 0 <= i < |w.calls| ==> r.calls[i] == r.calls[..|w.calls|][i] == w.calls[i];
  }

  /** One suspension: the frame as the program left it, and the thread on which it is resumed. */
  datatype Round = Round(frame: Thread, target: nat, onto: Thread, dest: int, alive: bool)

  predicate CanSuspend(r: Round) {
    HasFrame(r.frame) && 0 < r.target <= r.frame.top - r.frame.base && 0 <= r.onto.top < |r.onto.stack|
  }

  ghost predicate GivesBack(r: Round, resumed: Thread) {
    CanSuspend(r) && Survives(r.frame, r.target, r.onto, r.dest, r.alive, resumed)
  }

  /**
   * Whatever the program did to the frame and to the threads, every suspension gives the frame back and leaves
   * nothing behind.
   */
  method Live(g: SQGenerator, rounds: seq<Round>) returns (resumed: seq<Thread>)
    requires g.Valid() && g.state == Running && forall i :: 0 <= i < |rounds| ==> CanSuspend(rounds[i])
    modifies g
    ensures g.Valid() && g.state == Running && |resumed| == |rounds|
    ensures forall i :: 0 <= i < |rounds| ==> GivesBack(rounds[i], resumed[i])
  {
    hide Survives, IsKept, CanSuspend;
    resumed := [];
    for k := 0 to |rounds|
      invariant g.Valid() && g.state == Running && |resumed| == k
      invariant forall i :: 0 <= i < k ==> GivesBack(rounds[i], resumed[i])
    {
      var r := Suspend(g, rounds[k]);
      resumed := resumed + [r];
    }
  }

  method Suspend(g: SQGenerator, round: Round) returns (resumed: Thread)
    requires g.Valid() && g.state == Running && CanSuspend(round)
    modifies g
    ensures g.Valid() && g.state == Running
    ensures GivesBack(round, resumed)
  {
    hide Survives, IsKept, ResumedThread;
    var v := new CallStack(round.frame);
    var w := new CallStack(round.onto);
    FrameSurvives(g.State(), round.frame, round.onto, round.target, round.dest, round.alive);
    var ok := g.Yield(v, round.target);
    ok := g.Resume(w, round.dest, round.alive);
    resumed := w.State();
  }

  /** Yielding clears the frame and takes its traps, and touches nothing of the frames below. */
  lemma YieldLeavesCallers(v: Thread)
    requires HasFrame(v)
    ensures var y := YieldedThread(v);
            && y.stack[..v.base] == v.stack[..v.base] && (forall n :: v.base <= n < v.top ==> y.stack[n] == Null)
            && y.calls == v.calls && y.traps <= v.traps && |y.traps| == |v.traps| - Current(v).etraps
  {
  }

  // ---------- which operations a generator accepts ----------

  datatype GeneratorOp = YieldOp(frame: Thread, target: nat) | ResumeOp(onto: Thread, dest: int, alive: bool) | KillOp

  predicate CanDo(op: GeneratorOp) {
    match op
    case YieldOp(frame, target) => HasFrame(frame) && target <= frame.top - frame.base
    case ResumeOp(onto, _, _) => 0 <= onto.top < |onto.stack|
    case KillOp => true
  }

  predicate Accepts(state: GeneratorState, op: GeneratorOp) {
    match op
    case YieldOp(_, _) => state == Running
    case ResumeOp(_, _, _) => state == Suspended
    case KillOp => true
  }

  function StateAfter(state: GeneratorState, op: GeneratorOp): GeneratorState {
    if !Accepts(state, op) then state
    else
      match op
      case YieldOp(_, _) => Suspended
      case ResumeOp(_, _, _) => Running
      case KillOp => Dead
  }

  function Accepted(state: GeneratorState, ops: seq<GeneratorOp>): seq<bool>
    decreases |ops|
  {
    if ops == [] then [] else [Accepts(state, ops[0])] + Accepted(StateAfter(state, ops[0]), ops[1..])
  }

  /** Between two resumes that are accepted there is a yield that is, and what is dead stays dead. */
  lemma {:induction false} OneYieldForEachResume(state: GeneratorState, ops: seq<GeneratorOp>, i: nat, j: nat)
    requires i < j < |ops| == |Accepted(state, ops)| && ops[i].ResumeOp? && ops[j].ResumeOp?
    requires Accepted(state, ops)[i] && Accepted(state, ops)[j]
    ensures exists k :: i < k < j && ops[k].YieldOp? && Accepted(state, ops)[k]
    decreases |ops|
  {
    var next, rest := StateAfter(state, ops[0]), ops[1..];
    assert Accepted(state, ops) == [Accepts(state, ops[0])] + Accepted(next, rest);
    if i > 0 {
      OneYieldForEachResume(next, rest, i - 1, j - 1);
      var k :| i - 1 < k < j - 1 && rest[k].YieldOp? && Accepted(next, rest)[k];
      assert ops[k + 1].YieldOp? && Accepted(state, ops)[k + 1];
    } else {
      var k := YieldBefore(next, rest, j - 1);
      assert ops[k + 1].YieldOp? && Accepted(state, ops)[k + 1];
    }
  }

  lemma {:induction false} YieldBefore(state: GeneratorState, ops: seq<GeneratorOp>, j: nat) returns (k: nat)
    requires state == Running && j < |ops| == |Accepted(state, ops)| && ops[j].ResumeOp? && Accepted(state, ops)[j]
    ensures k < j && ops[k].YieldOp? && Accepted(state, ops)[k]
    decreases |ops|
  {
    var next, rest := StateAfter(state, ops[0]), ops[1..];
    assert Accepted(state, ops) == [Accepts(state, ops[0])] + Accepted(next, rest);
    k := 0;
    match ops[0]
    case YieldOp(_, _) =>
    case ResumeOp(_, _, _) => k := YieldBefore(next, rest, j - 1); k := k + 1;
    case KillOp => DeadForever(rest, j - 1);
  }

  lemma {:induction false} DeadForever(ops: seq<GeneratorOp>, k: nat)
    requires k < |ops|
    ensures |Accepted(Dead, ops)| == |ops| && Accepted(Dead, ops)[k] == ops[k].KillOp?
  {
    if |ops| > 1 { DeadForever(ops[1..], if k > 0 then k - 1 else 0); }
  }

  /** Over every run a generator accepts and refuses as its state says. */
  method Obey(g: SQGenerator, ops: seq<GeneratorOp>) returns (oks: seq<bool>)
    requires g.Valid() && forall op :: op in ops ==> CanDo(op)
    modifies g
    ensures g.Valid() && oks == Accepted(old(g.state), ops)
    decreases |ops|
  {
    hide YieldedGenerator, ResumedGenerator, ResumedThread;
    if ops == [] { return []; }
    var ok := Do(g, ops[0]);
    oks := Obey(g, ops[1..]);
    oks := [ok] + oks;
  }

  method Do(g: SQGenerator, op: GeneratorOp) returns (ok: bool)
    requires g.Valid() && CanDo(op)
    modifies g
    ensures g.Valid() && ok == Accepts(old(g.state), op) && g.state == StateAfter(old(g.state), op)
  {
    hide IsKept;
    match op {
      case YieldOp(frame, target) =>
        var v := new CallStack(frame);
        ok := g.Yield(v, target);
      case ResumeOp(onto, dest, alive) =>
        var v := new CallStack(onto);
        ok := g.Resume(v, dest, alive);
      case KillOp =>
        g.Kill();
        ok := true;
    }
  }
}
