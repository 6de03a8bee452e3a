/** The machine's list of open outers: pointers into a stack that moves when it grows. */
module OpenOuters {
  import opened Objects
  import opened CapturedVariables

  /** Where an outer's value is: in a slot of a stack buffer, or in the outer itself. */
  datatype Pointer = InStack(buffer: array<SQObject>, index: nat) | Own

  class SQOuter {
    /** How many outers were created before. */
    ghost const id: nat
    var valptr: Pointer
    var idx: nat
    var value: SQObject
    var next: SQOuter?

    constructor (ghost id: nat, valptr: Pointer, idx: nat, next: SQOuter?)
      ensures this.id == id && Fields() == Outer(valptr, idx, Null, IdOf(next))
      ensures this.next == next
    {
      this.id, this.valptr, this.idx, this.next, value := id, valptr, idx, next, Null;
    }

    ghost function Fields(): Outer
      reads this
    {
      Outer(valptr, idx, value, IdOf(next))
    }
  }

  ghost function IdOf(o: SQOuter?): int {
    if o == null then -1 else o.id
  }

  /** The fields of an outer at one moment, its successor by number. */
  datatype Outer = Outer(valptr: Pointer, idx: nat, value: SQObject, next: int)

  function CellOf(o: Outer): Cell {
    if o.valptr.Own? then Closed(o.value) else Cell.Open(o.idx)
  }

  function CellsOf(outers: seq<Outer>): seq<Cell> {
    seq(|outers|, i requires 0 <= i < |outers| => CellOf(outers[i]))
  }

  predicate IsOpen(outers: seq<Outer>, i: int) {
    0 <= i < |outers| && outers[i].valptr.InStack?
  }

  /** r is the highest open outer under bound, -1 if there is none. */
  ghost predicate Highest(outers: seq<Outer>, bound: int, r: int) {
    if r == -1 then forall j :: IsOpen(outers, j) ==> outers[j].idx >= bound
    else IsOpen(outers, r) && outers[r].idx < bound && forall j :: IsOpen(outers, j) && outers[j].idx < bound ==>
      outers[j].idx <= outers[r].idx
  }

  /** The list that starts at head holds the open outers in strictly descending order of their slots, one for a slot. */
  ghost predicate Linked(outers: seq<Outer>, head: int, stack: array<SQObject>) {
    && Highest(outers, stack.Length, head)
    && (forall i {:trigger outers[i].next} :: IsOpen(outers, i) ==> Highest(outers, outers[i].idx, outers[i].next))
    && (forall i :: IsOpen(outers, i) ==>
        outers[i].valptr == InStack(stack, outers[i].idx) && outers[i].idx < stack.Length)
    && (forall i, j :: IsOpen(outers, i) && IsOpen(outers, j) && outers[i].idx == outers[j].idx ==> i == j)
  }

  lemma LinkedIsDistinct(outers: seq<Outer>, head: int, stack: array<SQObject>)
    requires Linked(outers, head, stack)
    ensures Distinct(CellsOf(outers))
    ensures forall i :: 0 <= i < |outers| && CellsOf(outers)[i].Open? ==> CellsOf(outers)[i].slot < stack.Length
  {
    forall i, j | 0 <= i < j < |outers| && CellsOf(outers)[i].Open? ensures CellsOf(outers)[i] != CellsOf(outers)[j] {
      assert IsOpen(outers, i);
      if CellsOf(outers)[j].Open? { assert IsOpen(outers, j); }
    }
    forall i | 0 <= i < |outers| && CellsOf(outers)[i].Open? ensures CellsOf(outers)[i].slot < stack.Length {
      assert IsOpen(outers, i);
    }
  }

  /** A slot between an open outer and the next lower one is not open. */
  lemma NotOpen(outers: seq<Outer>, head: int, stack: array<SQObject>, prev: int, p: int, slot: nat)
    requires Linked(outers, head, stack) && slot < stack.Length && -1 <= prev < |outers|
    requires prev >= 0 ==> IsOpen(outers, prev) && slot < outers[prev].idx
    requires Highest(outers, if prev < 0 then stack.Length else outers[prev].idx, p) &&
             (p != -1 ==> outers[p].idx < slot)
    ensures Cell.Open(slot) !in CellsOf(outers) && Highest(outers, slot, p) && JustAbove(outers, slot, prev)
  {
    forall i | 0 <= i < |outers| ensures CellsOf(outers)[i] != Cell.Open(slot) {
      if CellsOf(outers)[i].Open? { assert IsOpen(outers, i); }
    }
  }

  /** A new outer for a slot, linked after prev. */
  function Inserted(outers: seq<Outer>, stack: array<SQObject>, slot: nat, prev: int, p: int): seq<Outer>
    requires prev < |outers|
  {
    (if prev < 0 then outers else outers[prev := outers[prev].(next := |outers|)]) +
      [Outer(InStack(stack, slot), slot, Null, p)]
  }

  /** prev is the lowest open outer above slot, which itself is not open. */
  ghost predicate JustAbove(outers: seq<Outer>, slot: nat, prev: int) {
    && prev < |outers| && (prev >= 0 ==> IsOpen(outers, prev) && slot < outers[prev].idx)
    && forall j :: IsOpen(outers, j) ==> outers[j].idx < slot || (prev >= 0 && outers[prev].idx <= outers[j].idx)
  }

  /** The list after an insertion, for the outers other than prev. */
  lemma InsertedIsHighest(outers: seq<Outer>, head: int, stack: array<SQObject>, slot: nat, prev: int, p: int, i: int)
    requires Linked(outers, head, stack) && slot < stack.Length && JustAbove(outers, slot, prev) &&
             Highest(outers, slot, p)
    requires IsOpen(outers, i) && i != prev
    ensures Highest(Inserted(outers, stack, slot, prev, p), outers[i].idx, outers[i].next)
  {
    var outers' := Inserted(outers, stack, slot, prev, p);
    var r := outers[i].next;
    assert Highest(outers, outers[i].idx, r);
    if slot < outers[i].idx {
      assert IsOpen(outers, prev) && outers[prev].idx < outers[i].idx;
      assert outers[prev].idx <= outers[r].idx;
    }
    forall j | IsOpen(outers', j) && outers'[j].idx < outers[i].idx
      ensures r != -1 && outers'[j].idx <= outers'[r].idx {
      if j < |outers| { assert IsOpen(outers, j); }
    }
  }

  /** The list after an insertion, for prev and the new outer. */
  lemma InsertedIsHighestHere(outers: seq<Outer>, stack: array<SQObject>, slot: nat, prev: int, p: int)
    requires JustAbove(outers, slot, prev) && Highest(outers, slot, p)
    ensures var outers' := Inserted(outers, stack, slot, prev, p);
            Highest(outers', slot, p) && (prev >= 0 ==> Highest(outers', outers[prev].idx, |outers|))
  {
    var outers' := Inserted(outers, stack, slot, prev, p);
    assert forall j :: IsOpen(outers', j) <==> IsOpen(outers, j) || j == |outers|;
  }

  /** After an insertion the same outers are open, and the new one; each in its slot of the stack. */
  lemma InsertedStays(outers: seq<Outer>, head: int, stack: array<SQObject>, slot: nat, prev: int, p: int)
    requires Linked(outers, head, stack) && slot < stack.Length && JustAbove(outers, slot, prev)
    ensures var outers' := Inserted(outers, stack, slot, prev, p);
            && (forall j :: IsOpen(outers', j) <==> IsOpen(outers, j) || j == |outers|)
            && (forall j :: IsOpen(outers, j) ==>
                outers'[j].idx == outers[j].idx != slot && outers'[j].valptr == outers[j].valptr)
            && CellsOf(outers') == CellsOf(outers) + [Cell.Open(slot)]
  {
    hide Linked;
  }

  lemma InsertedDescends(outers: seq<Outer>, head: int, stack: array<SQObject>, slot: nat, prev: int, p: int)
    requires Linked(outers, head, stack) && slot < stack.Length && JustAbove(outers, slot, prev) &&
             Highest(outers, slot, p)
    ensures var outers' := Inserted(outers, stack, slot, prev, p);
            && Highest(outers', stack.Length, if prev < 0 then |outers| else head)
            && forall i {:trigger outers'[i].next} :: IsOpen(outers', i) ==>
               Highest(outers', outers'[i].idx, outers'[i].next)
  {
    var outers' := Inserted(outers, stack, slot, prev, p);
    InsertedIsHighestHere(outers, stack, slot, prev, p);
    InsertedStays(outers, head, stack, slot, prev, p);
    InsertedIsHead(outers, head, stack, slot, prev, p);
    forall i | IsOpen(outers', i) ensures Highest(outers', outers'[i].idx, outers'[i].next) {
      hide Highest, JustAbove, Linked;
      if i != |outers| && i != prev { InsertedIsHighest(outers, head, stack, slot, prev, p, i); }
    }
  }

  lemma InsertedIsHead(outers: seq<Outer>, head: int, stack: array<SQObject>, slot: nat, prev: int, p: int)
    requires Linked(outers, head, stack) && slot < stack.Length && JustAbove(outers, slot, prev) &&
             Highest(outers, slot, p)
    ensures Highest(Inserted(outers, stack, slot, prev, p), stack.Length, if prev < 0 then |outers| else head)
  {
    InsertedStays(outers, head, stack, slot, prev, p);
    assert prev >= 0 ==> outers[prev].idx <= outers[head].idx;
  }

  lemma InsertKeepsLinked(outers: seq<Outer>, head: int, stack: array<SQObject>, slot: nat, prev: int, p: int)
    requires Linked(outers, head, stack) && slot < stack.Length && JustAbove(outers, slot, prev) &&
             Highest(outers, slot, p)
    ensures var outers' := Inserted(outers, stack, slot, prev, p);
            && Linked(outers', if prev < 0 then |outers| else head, stack)
            && CellsOf(outers') == CellsOf(outers) + [Cell.Open(slot)]
  {
    hide CellsOf, Highest;
    var outers' := Inserted(outers, stack, slot, prev, p);
    InsertedDescends(outers, head, stack, slot, prev, p);
    InsertedStays(outers, head, stack, slot, prev, p);
    assert outers'[|outers|].valptr == InStack(stack, slot) && outers'[|outers|].idx == slot;
    assert forall i :: IsOpen(outers', i) ==>
           outers'[i].valptr == InStack(stack, outers'[i].idx) && outers'[i].idx < stack.Length;
    forall i, j | IsOpen(outers', i) && IsOpen(outers', j) && outers'[i].idx == outers'[j].idx ensures i == j {
      if i != |outers| && j != |outers| { assert IsOpen(outers, i) && IsOpen(outers, j); }
    }
  }

  /** An outer after its variable was closed with the value v. */
  function ClosedAt(outers: seq<Outer>, i: nat, v: SQObject): seq<Outer>
    requires i < |outers|
  {
    outers[i := outers[i].(valptr := Own, value := v)]
  }

  lemma CloseKeepsLinked(outers: seq<Outer>, head: int, stack: array<SQObject>, v: SQObject)
    requires Linked(outers, head, stack) && head >= 0
    ensures Linked(ClosedAt(outers, head, v), outers[head].next, stack)
    ensures CellsOf(ClosedAt(outers, head, v)) == CellsOf(outers)[head := Closed(v)]
  {
    var outers' := ClosedAt(outers, head, v);
    assert forall j :: IsOpen(outers', j) <==> IsOpen(outers, j) && j != head;
    forall i | IsOpen(outers', i) ensures Highest(outers', outers'[i].idx, outers'[i].next) {
      assert IsOpen(outers, i) && Highest(outers, outers[i].idx, outers[i].next);
    }
    assert Highest(outers, outers[head].idx, outers[head].next);
  }

  // ---------- closing from the top down ----------

  function ClosedFrom(stack: seq<SQObject>, cells: seq<Cell>, from: int): seq<Cell> {
    seq(|cells|, i requires 0 <= i < |cells| => CloseCell(stack, cells[i], from))
  }

  lemma ClosedAboveAll(outers: seq<Outer>, head: int, stack: array<SQObject>)
    requires Linked(outers, head, stack)
    ensures CellsOf(outers) == ClosedFrom(stack[..], CellsOf(outers), stack.Length)
    ensures forall i :: IsOpen(outers, i) ==> outers[i].idx < stack.Length
  {
  }

  lemma ClosedFromNext(outers: seq<Outer>, head: nat, stack: array<SQObject>, cells: seq<Cell>, bound: int)
    requires Linked(outers, head, stack) && CellsOf(outers) == ClosedFrom(stack[..], cells, bound) &&
             outers[head].idx < bound
    ensures var outers' := ClosedAt(outers, head, stack[outers[head].idx]);
            && CellsOf(outers') == ClosedFrom(stack[..], cells, outers[head].idx)
            && forall i :: IsOpen(outers', i) ==> outers'[i].idx < outers[head].idx
  {
    var outers' := ClosedAt(outers, head, stack[outers[head].idx]);
    forall i | 0 <= i < |outers| ensures CellOf(outers'[i]) == CloseCell(stack[..], cells[i], outers[head].idx) {
      assert CellsOf(outers)[i] == CloseCell(stack[..], cells[i], bound);
      assert IsOpen(outers, i) ==> i == head || outers[i].idx < outers[head].idx;
    }
    forall i | IsOpen(outers', i) ensures outers'[i].idx < outers[head].idx {
      assert IsOpen(outers, i);
    }
  }

  lemma ClosedFromLast(outers: seq<Outer>, head: int, stack: array<SQObject>, cells: seq<Cell>, bound: int, from: int)
    requires Linked(outers, head, stack) && CellsOf(outers) == ClosedFrom(stack[..], cells, bound) &&
             (from <= bound || bound == stack.Length)
    requires head != -1 ==> outers[head].idx < from
    ensures CellsOf(outers) == ClosedFrom(stack[..], cells, from)
  {
    forall i | 0 <= i < |outers| ensures CellOf(outers[i]) == CloseCell(stack[..], cells[i], from) {
      assert CellsOf(outers)[i] == CloseCell(stack[..], cells[i], bound);
      assert IsOpen(outers, i) ==> outers[i].idx < from;
    }
  }

  // ---------- a stack that moved ----------

  /** The open outers at or above a slot point into the new stack. */
  function Relocated(outers: seq<Outer>, stack: array<SQObject>, from: int): seq<Outer> {
    seq(|outers|, i requires 0 <= i < |outers| =>
      if outers[i].valptr.InStack? && outers[i].idx >= from then outers[i].(valptr := InStack(stack, outers[i].idx))
        else outers[i])
  }

  /** Relocating the highest outer under bound, by lowering the bound to its slot. */
  lemma RelocatedNext(outers: seq<Outer>, head: int, was: array<SQObject>, stack: array<SQObject>, bound: int, i: nat)
    requires Linked(outers, head, was) && Highest(outers, bound, i)
    ensures Relocated(outers, stack, outers[i].idx) ==
            Relocated(outers, stack, bound)[i := outers[i].(valptr := InStack(stack, outers[i].idx))]
    ensures Highest(outers, outers[i].idx, outers[i].next)
  {
    forall j | 0 <= j < |outers| && outers[j].valptr.InStack?
      ensures j == i || outers[j].idx >= bound || outers[j].idx < outers[i].idx {
      assert IsOpen(outers, j) && IsOpen(outers, i);
    }
  }

  lemma RelocatedLast(outers: seq<Outer>, stack: array<SQObject>, bound: int)
    requires Highest(outers, bound, -1)
    ensures Relocated(outers, stack, bound) == Relocated(outers, stack, 0)
  {
    forall i | 0 <= i < |outers| && outers[i].valptr.InStack? ensures outers[i].idx >= bound {
      assert IsOpen(outers, i);
    }
  }

  lemma LinkedIsRelocated(outers: seq<Outer>, head: int, was: array<SQObject>, stack: array<SQObject>)
    requires Linked(outers, head, was)
    ensures Highest(outers, was.Length, head) && Relocated(outers, stack, was.Length) == outers
  {
    assert forall i :: 0 <= i < |outers| && outers[i].valptr.InStack? ==> IsOpen(outers, i);
  }

  lemma RelocatedIsHighest(outers: seq<Outer>, stack: array<SQObject>, bound: int, r: int)
    requires Highest(outers, bound, r)
    ensures Highest(Relocated(outers, stack, 0), bound, r)
  {
    assert forall i :: IsOpen(Relocated(outers, stack, 0), i) <==> IsOpen(outers, i);
  }

  lemma RelocatedIsLinked(outers: seq<Outer>, head: int, was: array<SQObject>, stack: array<SQObject>)
    requires Linked(outers, head, was) && was.Length <= stack.Length
    ensures Linked(Relocated(outers, stack, 0), head, stack) && CellsOf(Relocated(outers, stack, 0)) == CellsOf(outers)
  {
    var moved := Relocated(outers, stack, 0);
    assert forall i :: IsOpen(moved, i) <==> IsOpen(outers, i);
    assert Highest(outers, stack.Length, head);
    RelocatedIsHighest(outers, stack, stack.Length, head);
    forall i | IsOpen(moved, i) ensures Highest(moved, moved[i].idx, moved[i].next) {
      hide Highest, Linked;
      RelocatedIsHighest(outers, stack, outers[i].idx, outers[i].next);
    }
    hide Highest;
  }

  lemma FramesEntered(s: State, newbase: int, newtop: nat)
    requires FramesOk(s.calls, s.base, s.top, |s.stack|) && Allowed(s, EnterOp(newbase, newtop))
    ensures var s' := Enter(s, newbase, newtop); FramesOk(s'.calls, s'.base, s'.top, |s'.stack|)
  {
    var s' := Enter(s, newbase, newtop);
    FramesGrow(s.calls, s.base, s.top, |s.stack|, |s'.stack|);
    assert s'.calls[..|s'.calls| - 1] == s.calls;
  }

  lemma NothingToClose(outers: seq<Outer>, stack: array<SQObject>, from: int)
    requires Highest(outers, stack.Length, -1) && forall i :: IsOpen(outers, i) ==> outers[i].idx < stack.Length
    ensures CellsOf(outers) == ClosedFrom(stack[..], CellsOf(outers), from)
  {
    forall i | 0 <= i < |outers| ensures outers[i].valptr == Own {
      assert IsOpen(outers, i) == outers[i].valptr.InStack?;
    }
  }

  lemma WrittenIsLinked(outers: seq<Outer>, head: int, stack: array<SQObject>, i: nat, v: SQObject)
    requires Linked(outers, head, stack) && i < |outers| && outers[i].valptr == Own
    ensures var outers' := outers[i := outers[i].(value := v)];
            Linked(outers', head, stack) && CellsOf(outers') == CellsOf(outers)[i := Closed(v)]
  {
    var outers' := outers[i := outers[i].(value := v)];
    assert forall j :: IsOpen(outers', j) <==> IsOpen(outers, j);
    forall j | IsOpen(outers', j) ensures Highest(outers', outers'[j].idx, outers'[j].next) {
      assert Highest(outers, outers[j].idx, outers[j].next);
    }
  }

  class SQVM {
    var stack: array<SQObject>
    var stackbase: int
    var top: int
    var callsstack: seq<CallInfo>
    var openouters: SQOuter?
    /** Every outer ever created, in that order. */
    ghost var all: seq<SQOuter>

    ghost function Outers(): seq<Outer>
      reads this, all
    {
      seq(|all|, i requires 0 <= i < |all| reads this, all => all[i].Fields())
    }

    ghost function Abs(): State
      reads this, stack, all
    {
      State(stack[..], stackbase, top, callsstack, CellsOf(Outers()))
    }

    ghost predicate Known(o: SQOuter?)
      reads this
    {
      o != null ==> o.id < |all| && all[o.id] == o
    }

    ghost predicate Numbered()
      reads this, all
    {
      Known(openouters) && forall i :: 0 <= i < |all| ==> all[i].id == i && Known(all[i].next)
    }

    ghost predicate Valid()
      reads this, stack, all
    {
      Numbered() && Linked(Outers(), IdOf(openouters), stack) && FramesOk(callsstack, stackbase, top, stack.Length)
    }

    constructor (size: nat, top: nat)
      requires top < size
      ensures Valid() && Abs() == State(Nulls(size), 0, top, [], []) && fresh(stack) && all == []
    {
      stack := new SQObject[size](_ => Null);
      stackbase, this.top, callsstack, openouters, all := 0, top, [], null, [];
    }

    lemma ValidIsSound()
      requires Valid()
      ensures Sound(Abs())
    {
      LinkedIsDistinct(Outers(), IdOf(openouters), stack);
    }

    /** Where slot belongs in the list: after prev and before p, or at p. */
    method Seek(slot: nat) returns (prev: SQOuter?, p: SQOuter?)
      requires Valid() && slot < stack.Length
      ensures Known(prev) && Known(p)
      ensures prev != null ==> IsOpen(Outers(), prev.id) && slot < prev.idx
      ensures Highest(Outers(), if prev == null then stack.Length else prev.idx, IdOf(p)) &&
              (p != null ==> p.idx <= slot)
      ensures prev == null ==> p == openouters
    {
      prev, p := null, openouters;
      while p != null && p.idx > slot
        invariant Known(prev) && Known(p)
        invariant prev != null ==> IsOpen(Outers(), prev.id) && slot < prev.idx
        invariant Highest(Outers(), if prev == null then stack.Length else prev.idx, IdOf(p))
        invariant prev == null ==> p == openouters
        decreases if p == null then -1 else p.idx
      {
        assert p.Fields() == Outers()[p.id] && IsOpen(Outers(), p.id);
        prev, p := p, p.next;
        if p != null { assert p.Fields() == Outers()[p.id]; }
      }
    }

    method Link(slot: nat, prev: SQOuter?, p: SQOuter?) returns (target: SQOuter)
      requires Numbered() && Known(prev) && Known(p)
      modifies this, all
      ensures fresh(target) && all == old(all) + [target] && stack == old(stack) && stack[..] == old(stack[..])
      ensures stackbase == old(stackbase) && top == old(top) && callsstack == old(callsstack)
      ensures openouters == if prev == null then target else old(openouters)
      ensures Outers() == Inserted(old(Outers()), stack, slot, IdOf(prev), IdOf(p))
      ensures Numbered() && Known(target) && target.valptr == InStack(stack, slot)
    {
      target := new SQOuter(|all|, InStack(stack, slot), slot, p);
      if prev == null {
        openouters := target;
      } else {
        prev.next := target;
      }
      all := all + [target];
    }

    method InsertOuter(slot: nat, prev: SQOuter?, p: SQOuter?) returns (target: SQOuter)
      requires Valid() && slot < stack.Length && Known(prev) && Known(p)
      requires JustAbove(Outers(), slot, IdOf(prev)) && Highest(Outers(), slot, IdOf(p))
      modifies this, all
      ensures Valid() && Abs() == old(Abs()).(cells := old(Abs()).cells + [Cell.Open(slot)])
      ensures fresh(target) && all == old(all) + [target] && stack == old(stack)
      ensures Known(target) && target.valptr == InStack(stack, slot)
    {
      hide Linked, Highest, JustAbove, Inserted, CellsOf, FramesOk;
      InsertKeepsLinked(Outers(), IdOf(openouters), stack, slot, IdOf(prev), IdOf(p));
      target := Link(slot, prev, p);
      assert IdOf(openouters) == if prev == null then |old(all)| else old(IdOf(openouters));
    }

    /** The outer of a slot: the one on the list, or a new one in its place. */
    method FindOuter(slot: nat) returns (target: SQOuter)
      requires Valid() && slot < stack.Length
      modifies this, all
      ensures Valid() && Abs() == Capture(old(Abs()), slot)
      ensures all == (if Cell.Open(slot) in old(Abs()).cells then old(all) else old(all) + [target])
      ensures stack == old(stack) && Known(target) && target.valptr == InStack(stack, slot)
      ensures if Cell.Open(slot) in old(Abs()).cells then target in old(all) else fresh(target)
    {
      var prev, p := Seek(slot);
      if p != null { assert p.Fields() == Outers()[p.id]; }
      if p != null && p.idx == slot {
        assert CellsOf(Outers())[p.id] == Cell.Open(slot);
        target := p;
      } else {
        if prev != null { assert prev.Fields() == Outers()[prev.id]; }
        NotOpen(Outers(), IdOf(openouters), stack, IdOf(prev), IdOf(p), slot);
        target := InsertOuter(slot, prev, p);
      }
    }

    /** Closes every open outer at or above a slot. */
    method CloseOuters(from: int)
      requires Valid()
      modifies this, all
      ensures Valid() && Abs() == CloseFrom(old(Abs()), from)
      ensures stack == old(stack) && all == old(all)
    {
      ghost var cells, bound := CellsOf(Outers()), stack.Length;
      ClosedAboveAll(Outers(), IdOf(openouters), stack);
      while openouters != null && openouters.idx >= from
        invariant Numbered() && Linked(Outers(), IdOf(openouters), stack)
        invariant stack == old(stack) && stack[..] == old(stack[..]) && all == old(all)
        invariant stackbase == old(stackbase) && top == old(top) && callsstack == old(callsstack)
        invariant (from <= bound || bound == stack.Length) && CellsOf(Outers()) == ClosedFrom(stack[..], cells, bound)
        invariant forall i :: IsOpen(Outers(), i) ==> Outers()[i].idx < bound
        decreases if openouters == null then -1 else openouters.idx
      {
        assert openouters.Fields() == Outers()[openouters.id];
        CloseKeepsLinked(Outers(), openouters.id, stack, stack[openouters.idx]);
        ClosedFromNext(Outers(), openouters.id, stack, cells, bound);
        bound := openouters.idx;
        CloseHead();
        if openouters != null { assert openouters.Fields() == Outers()[openouters.id]; }
      }
      if openouters != null { assert openouters.Fields() == Outers()[openouters.id]; }
      ClosedFromLast(Outers(), IdOf(openouters), stack, cells, bound, from);
    }

    method CloseHead()
      requires Numbered() && openouters != null && openouters.valptr == InStack(stack, openouters.idx) &&
               openouters.idx < stack.Length
      modifies this, all
      ensures Numbered() && stack == old(stack) && all == old(all) && stack[..] == old(stack[..]) &&
              openouters == old(openouters.next)
      ensures stackbase == old(stackbase) && top == old(top) && callsstack == old(callsstack)
      ensures Outers() == ClosedAt(old(Outers()), old(openouters.id), stack[old(openouters.idx)])
    {
      var p := openouters;
      p.value := p.valptr.buffer[p.valptr.index];
      p.valptr := Own;
      openouters := p.next;
    }

    // ---------- growth ----------

    method Resize(newsize: nat) returns (bigger: array<SQObject>)
      requires stack.Length <= newsize
      ensures fresh(bigger) && bigger[..] == stack[..] + Nulls(newsize - stack.Length)
    {
      bigger := new SQObject[newsize](_ => Null);
      var i := 0;
      while i < stack.Length
        invariant 0 <= i <= stack.Length && stack[..] == old(stack[..])
        invariant forall k :: 0 <= k < i ==> bigger[k] == stack[k]
        invariant forall k :: i <= k < newsize ==> bigger[k] == Null
      {
        bigger[i] := stack[i];
        i := i + 1;
      }
    }

    method Relocate(p: SQOuter)
      requires Numbered() && Known(p)
      modifies p
      ensures Numbered() && p.next == old(p.next) && p.idx == old(p.idx)
      ensures Outers() == old(Outers())[p.id := old(Outers())[p.id].(valptr := InStack(stack, p.idx))]
    {
      p.valptr := InStack(stack, p.idx);
      assert forall i :: 0 <= i < |all| && i != p.id ==> all[i] != p;
    }

    /** Points every open outer into the stack, after it moved. */
    method RelocateOuters(ghost was: array<SQObject>)
      requires Numbered() && Linked(Outers(), IdOf(openouters), was) && was.Length <= stack.Length
      modifies all
      ensures Numbered() && Outers() == Relocated(old(Outers()), stack, 0)
    {
      hide Linked;
      ghost var bound, outers := was.Length, Outers();
      LinkedIsRelocated(outers, IdOf(openouters), was, stack);
      var p := openouters;
      while p != null
        invariant Numbered() && Known(p) && Highest(outers, bound, IdOf(p)) && |outers| == |all|
        invariant Outers() == Relocated(outers, stack, bound)
        decreases if p == null then -1 else p.idx
      {
        assert p.Fields() == Outers()[p.id];
        RelocatedNext(outers, IdOf(openouters), was, stack, bound, p.id);
        bound := p.idx;
        Relocate(p);
        p := p.next;
        if p != null { assert p.Fields() == Outers()[p.id]; }
      }
      RelocatedLast(outers, stack, bound);
    }

    method PushFrame(newbase: int, newtop: nat)
      modifies `callsstack, `stackbase, `top
      ensures callsstack == old(callsstack) + [CallInfo(newbase - old(stackbase), old(top) - old(stackbase))]
      ensures stackbase == newbase && top == newtop && Outers() == old(Outers())
      ensures old(Numbered()) ==> Numbered()
    {
      callsstack := callsstack + [CallInfo(newbase - stackbase, top - stackbase)];
      stackbase, top := newbase, newtop;
      assert Outers() == old(Outers());
    }

    /** Moves the stack into a bigger one, with the open outers. */
    method Grow(newsize: nat)
      requires Numbered() && Linked(Outers(), IdOf(openouters), stack) && stack.Length <= newsize
      modifies `stack, all
      ensures Numbered() && Linked(Outers(), IdOf(openouters), stack)
      ensures fresh(stack) && stack[..] == old(stack[..]) + Nulls(newsize - old(stack.Length)) &&
              CellsOf(Outers()) == old(CellsOf(Outers()))
    {
      ghost var was := stack;
      stack := Resize(newsize);
      assert Outers() == old(Outers());
      RelocateOuters(was);
      RelocatedIsLinked(old(Outers()), IdOf(openouters), was, stack);
    }

    /** Starts a frame. The stack may move, in which case the open outers follow it. */
    method EnterFrame(newbase: int, newtop: nat)
      requires Valid() && Allowed(Abs(), EnterOp(newbase, newtop))
      modifies this, all
      ensures Valid() && Abs() == Enter(old(Abs()), newbase, newtop)
      ensures all == old(all) && (stack == old(stack) || fresh(stack))
    {
      hide Highest;
      FramesEntered(Abs(), newbase, newtop);
      PushFrame(newbase, newtop);
      if newtop + MIN_STACK_OVERHEAD > stack.Length {
        Grow(newtop + 4 * MIN_STACK_OVERHEAD);
      } else {
        assert stack[..] == stack[..] + Nulls(0);
      }
    }

    // ---------- leaving a frame ----------

    method PopFrame()
      requires Valid() && callsstack != []
      modifies `callsstack, `stackbase, `top
      ensures Valid() && Outers() == old(Outers())
      ensures var ci := old(callsstack)[|old(callsstack)| - 1];
              callsstack == old(callsstack)[..|old(callsstack)| - 1] && stackbase == old(stackbase) - ci.prevstkbase &&
                top == stackbase + ci.prevtop
    {
      var ci := callsstack[|callsstack| - 1];
      callsstack := callsstack[..|callsstack| - 1];
      stackbase := stackbase - ci.prevstkbase;
      top := stackbase + ci.prevtop;
      assert Outers() == old(Outers());
    }

    /** Ends a frame: its captured variables are closed and its registers cleared. */
    method LeaveFrame()
      requires Valid() && callsstack != []
      modifies this, stack, all
      ensures Valid() && Abs() == Leave(old(Abs()))
      ensures all == old(all) && stack == old(stack)
    {
      hide Linked, CellsOf;
      var lastTop, lastStackbase := top, stackbase;
      PopFrame();
      CloseIfAny(lastStackbase);
      ghost var before := Outers();
      Wipe(lastTop);
      assert Outers() == before;
    }

    method CloseIfAny(from: int)
      requires Valid()
      modifies this, all
      ensures Valid() && Abs() == CloseFrom(old(Abs()), from)
      ensures stack == old(stack) && all == old(all)
    {
      if openouters != null {
        CloseOuters(from);
      } else {
        NothingToClose(Outers(), stack, from);
      }
    }

    method Wipe(last: int)
      requires 0 <= top && last < stack.Length
      modifies stack
      ensures stack[..] == Wiped(old(stack[..]), top, last)
    {
      var lastTop := last;
      while lastTop >= top
        invariant lastTop <= last
        invariant forall k :: 0 <= k < stack.Length ==> stack[k] == if lastTop < k <= last && top <= k then Null
                  else old(stack[k])
        decreases lastTop - top
      {
        stack[lastTop] := Null;
        lastTop := lastTop - 1;
      }
    }

    // ---------- reading and assigning ----------

    method GetOuter(o: SQOuter) returns (v: SQObject)
      requires Valid() && Known(o)
      ensures Sound(Abs()) && v == ReadCell(Abs(), o.id)
    {
      ValidIsSound();
      assert o.Fields() == Outers()[o.id];
      assert IsOpen(Outers(), o.id) ==> o.valptr == InStack(stack, o.idx) && o.idx < stack.Length;
      match o.valptr {
        case InStack(buffer, index) => v := buffer[index];
        case Own => v := o.value;
      }
    }

    method SetOuter(o: SQOuter, v: SQObject)
      requires Valid() && Known(o) && Sound(Abs())
      modifies stack, o
      ensures Valid() && Abs() == WriteCell(old(Abs()), o.id, v)
    {
      assert o.Fields() == Outers()[o.id];
      assert IsOpen(Outers(), o.id) ==> o.valptr == InStack(stack, o.idx) && o.idx < stack.Length;
      match o.valptr {
        case InStack(buffer, index) => SetSlot(index, v);
        case Own => SetOwn(o, v);
      }
    }

    method SetOwn(o: SQOuter, v: SQObject)
      requires Valid() && Known(o) && o.valptr.Own?
      modifies o
      ensures Valid() && Outers() == old(Outers())[o.id := old(Outers())[o.id].(value := v)]
      ensures CellsOf(Outers()) == old(CellsOf(Outers()))[o.id := Closed(v)]
    {
      o.value := v;
      WrittenIsLinked(old(Outers()), IdOf(openouters), stack, o.id, v);
      assert Outers() == old(Outers())[o.id := old(Outers())[o.id].(value := v)];
    }

    method SetSlot(slot: nat, v: SQObject)
      requires Valid() && slot < stack.Length
      modifies stack
      ensures Valid() && Abs() == WriteSlot(old(Abs()), slot, v)
    {
      stack[slot] := v;
      assert Outers() == old(Outers());
    }

    // ---------- runs ----------

    lemma CellCount()
      ensures |Abs().cells| == |all|
    {
    }

    /** One operation. held are the outers that closures refer to. */
    method Do(op: Op, held: seq<SQOuter>) returns (now: seq<SQOuter>)
      requires Valid() && Sound(Abs()) && Allowed(Abs(), op) && held == all
      modifies this, stack, all
      ensures Valid() && Abs() == Apply(old(Abs()), op)
      ensures now == all && (stack == old(stack) || fresh(stack)) &&
              (forall i :: 0 <= i < |all| ==> all[i] in old(all) || fresh(all[i]))
    {
      hide Linked, CellsOf;
      now := held;
      match op {
        case CaptureOp(slot) =>
          var o := FindOuter(slot);
          if o !in held { now := held + [o]; }
        case CloseOp(from) => CloseOuters(from);
        case EnterOp(newbase, newtop) => EnterFrame(newbase, newtop);
        case LeaveOp => LeaveFrame();
        case WriteSlotOp(slot, v) => SetSlot(slot, v);
        case WriteCellOp(i, v) =>
          CellCount();
          SetOuter(held[i], v);
      }
    }

    /** A whole run does what the operations do to captured variables, however often the stack moved. */
    method Run(list: seq<Op>)
      requires Valid() && Sound(Abs()) && all == [] && AllAllowed(Abs(), list)
      modifies this, stack
      ensures Valid() && Abs() == RunOps(old(Abs()), list)
      ensures Returns(list, 0) ==>
              stackbase == old(stackbase) && top == old(top) && callsstack == old(callsstack)
    {
      hide Linked, CellsOf;
      if Returns(list, 0) { BalancedRunKeepsFrame(Abs(), list); }
      var i, held := 0, [];
      assert list[0..] == list;
      while i < |list|
        invariant 0 <= i <= |list| && Valid() && Sound(Abs()) && AllAllowed(Abs(), list[i..])
        invariant RunOps(Abs(), list[i..]) == RunOps(old(Abs()), list)
        invariant held == all && (stack == old(stack) || fresh(stack)) && forall i :: 0 <= i < |all| ==> fresh(all[i])
      {
        assert list[i..][1..] == list[i + 1..];
        ApplyIsSound(Abs(), list[i]);
        held := Do(list[i], held);
        i := i + 1;
      }
    }
  }
}
