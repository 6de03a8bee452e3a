/**
 * What the transfers on the wires do to a memory access port at address 0, as in chapter C2 of Arm IHI 0031: it has
 * its control word at 0x00, the address of an access at 0x04 and the data at 0x0C.
 */
module MemoryPort {
  import opened SerialWire

  /** The memory as far as it was written, in words. The address is unknown after an access, which may increase it. */
  datatype Port = Port(wide: bool, address: Known, memory: map<Word, Word>)

  datatype Known = Known(word: Word) | Unknown

  /** Bits 0 to 2 of the control word are 2: accesses are of 32 bits. */
  predicate IsWide(csw: Word) {
    !csw[0] && csw[1] && !csw[2]
  }

  predicate IsForPort(t: Transfer) {
    && t.r.ap && t.ack == SWD_OK
    && (forall i :: 24 <= i < 32 ==> !t.selected[i]) && (forall i :: 4 <= i < 8 ==> !t.selected[i])
  }

  function Step(p: Port, t: Transfer): Port {
    if !IsForPort(t) then p
    else
      match (t.r.a3, t.r.a2)
      case (false, false) => if t.r.read then p else p.(wide := IsWide(t.data))
      case (false, true) => if t.r.read then p else p.(address := Known(t.data))
      case (true, false) => p
      case (true, true) =>
        if t.r.read then p.(address := Unknown)
        else if p.wide && p.address.Known? then p.(address := Unknown, memory := p.memory[p.address.word := t.data])
        else p.(address := Unknown, memory := map[])
  }

  /** The port after these transfers, of which nothing is known before them. */
  function After(log: seq<Transfer>): Port {
    if log == [] then Port(false, Unknown, map[]) else Step(After(log[..|log| - 1]), log[|log| - 1])
  }

  /** Transfers that the port does not take do not change it. */
  lemma {:induction false} NotTaken(before: seq<Transfer>, after: seq<Transfer>)
    requires before <= after && forall k :: |before| <= k < |after| ==> !IsForPort(after[k])
    ensures After(after) == After(before)
    decreases |after|
  {
    if |after| == |before| {
      assert after == before;
    } else {
      NotTaken(before, after[..|after| - 1]);
    }
  }
}
