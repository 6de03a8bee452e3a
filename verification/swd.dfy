/**
 * Serial wire debug: what the programmer puts on the wire and what it makes of the answers. Framing as in chapter B4
 * of Arm IHI 0031.
 */
module SerialWire {
  /** 32 bits, the lowest first. */
  type Word = w: seq<bool> | |w| == 32 witness seq(32, _ => false)

  datatype Request = Request(ap: bool, read: bool, a2: bool, a3: bool)

  function Xor(a: bool, b: bool): bool {
    a != b
  }

  /** Whether an odd number of the n bits from i on are set. */
  function Odd(s: seq<bool>, i: nat, n: nat): bool
    decreases n
  {
    if n == 0 then false else Xor(i < |s| && s[i], Odd(s, i + 1, n - 1))
  }

  lemma {:induction false} OddTogether(s: seq<bool>, i: nat, n: nat, m: nat)
    ensures Odd(s, i, n + m) == Xor(Odd(s, i, n), Odd(s, i + n, m))
    decreases n
  {
    if n > 0 { OddTogether(s, i + 1, n - 1, m); }
  }

  // ---------- parity ----------

  /** x ^ (x >> k) */
  function XorShifted(x: Word, k: nat): Word {
    seq(32, i requires 0 <= i < 32 => Xor(x[i], i + k < 32 && x[i + k]))
  }

  /** Bit i is the parity of n bits of x from i on, as far as these are in x. */
  ghost predicate Folded(x: Word, y: Word, n: nat) {
    forall i :: 0 <= i < 32 ==> y[i] == Odd(x, i, n)
  }

  lemma {:induction false} OddBeyond(s: seq<bool>, i: nat, n: nat)
    requires i >= |s|
    ensures !Odd(s, i, n)
    decreases n
  {
    if n > 0 { OddBeyond(s, i + 1, n - 1); }
  }

  lemma FoldTwice(x: Word, y: Word, n: nat)
    requires Folded(x, y, n)
    ensures Folded(x, XorShifted(y, n), 2 * n)
  {
    forall i | 0 <= i < 32 ensures XorShifted(y, n)[i] == Odd(x, i, 2 * n) {
      OddTogether(x, i, n, n);
      if i + n >= 32 { OddBeyond(x, i + n, n); }
    }
  }

  /** The exclusive-or fold is the parity of the word. */
  method CalcParity(x: Word) returns (odd: bool)
    ensures odd == Odd(x, 0, 32)
  {
    assert Folded(x, x, 1) by {
      forall i | 0 <= i < 32 ensures x[i] == Odd(x, i, 1) {
        assert !Odd(x, i + 1, 0);
      }
    }
    FoldTwice(x, x, 1);
    var y := XorShifted(x, 1);
    FoldTwice(x, y, 2);
    y := XorShifted(y, 2);
    FoldTwice(x, y, 4);
    y := XorShifted(y, 4);
    FoldTwice(x, y, 8);
    y := XorShifted(y, 8);
    FoldTwice(x, y, 16);
    y := XorShifted(y, 16);
    odd := y[0];
  }

  // ---------- the header ----------

  function ParityOf(r: Request): bool {
    Xor(Xor(Xor(r.ap, r.read), r.a2), r.a3)
  }

  /** Start, four bits of the request, their parity, stop and park. */
  function Header(r: Request): seq<bool> {
    [true, r.ap, r.read, r.a2, r.a3, ParityOf(r), false, true]
  }

  function Number(b: seq<bool>): nat {
    if b == [] then 0 else (if b[0] then 1 else 0) + 2 * Number(b[1..])
  }

  function AsNumber(b: bool): nat {
    if b then 1 else 0
  }

  /** The header as a number, sent from its lowest bit on: 0xA5 reads the identification, 0xB1 writes SELECT. */
  lemma {:induction false} HeaderNumber(r: Request)
    ensures var ap, read, a2, a3 := AsNumber(r.ap), AsNumber(r.read), AsNumber(r.a2), AsNumber(r.a3);
            Number(Header(r)) == 0x81 + 2 * ap + 4 * read + 8 * a2 + 16 * a3 + 32 * ((ap + read + a2 + a3) % 2)
  {
    var h := Header(r);
    assert Number(h[8..]) == 0;
    assert Number(h[7..]) == 1 && Number(h[6..]) == 2 by { assert h[7..][1..] == h[8..] && h[6..][1..] == h[7..]; }
    assert h[5..][1..] == h[6..] && h[4..][1..] == h[5..] && h[3..][1..] == h[4..] && h[2..][1..] == h[3..];
    assert h[1..][1..] == h[2..];
  }

  datatype Decoded = NoRequest | IsRequest(r: Request)

  /** What a target makes of eight bits. */
  function DecodeHeader(b: seq<bool>): Decoded {
    if |b| == 8 && b[0] && !b[6] && b[7] && b[5] == ParityOf(Request(b[1], b[2], b[3], b[4]))
    then IsRequest(Request(b[1], b[2], b[3], b[4])) else NoRequest
  }

  lemma HeaderIsRequest(r: Request)
    ensures DecodeHeader(Header(r)) == IsRequest(r)
  {
  }

  /** A target decodes the request, and none at all if any one bit arrives wrong. */
  lemma HeaderIsDecoded(r: Request, k: nat)
    requires k < 8
    ensures DecodeHeader(Header(r)) == IsRequest(r)
    ensures DecodeHeader(Header(r)[k := !Header(r)[k]]) == NoRequest
  {
    HeaderIsRequest(r);
    var bad := Header(r)[k := !Header(r)[k]];
    assert bad[0] == (k != 0) && bad[6] == (k == 6) && bad[7] == (k != 7) && bad[5] == Xor(ParityOf(r), k == 5);
    assert bad[1] == Xor(r.ap, k == 1) && bad[2] == Xor(r.read, k == 2) && bad[3] == Xor(r.a2, k == 3) &&
           bad[4] == Xor(r.a3, k == 4);
  }

  // ---------- the target ----------

  /** All of a target's debug port but its SELECT register. */
  type PortState(!new)

  datatype DebugPort = DebugPort(selected: Word, rest: PortState)

  const SWD_OK := 1
  const SWD_WAIT := 2
  const SWD_FAIL := 4

  /**
   * What the target sends after a header: the acknowledgement, for a read the data and their parity, and what becomes
   * of it.
   */
  datatype Answer = Answer(ack0: bool, ack1: bool, ack2: bool, data: Word, parity: bool, next: DebugPort)

  /** answer reacts to a header, accept takes the data of a write that was acknowledged. */
  datatype Device = Device(
    answer: (DebugPort, Request) -> Answer,
    accept: (DebugPort, Request, Word, bool) -> DebugPort,
    reset: DebugPort -> DebugPort)

  function AckOf(a: Answer): nat {
    (if a.ack0 then 1 else 0) + (if a.ack1 then 2 else 0) + (if a.ack2 then 4 else 0)
  }

  predicate IsSelect(r: Request) {
    !r.ap && !r.read && !r.a2 && r.a3
  }

  /**
   * Only an acknowledged write to SELECT, with the right parity, changes SELECT. A transaction without an OK has no
   * effect on it.
   */
  ghost predicate Faithful(d: Device) {
    && (forall t, r :: d.answer(t, r).next.selected == t.selected)
    && (forall t, r, w: Word, p :: d.accept(t, r, w, p).selected == if IsSelect(r) && p == Odd(w, 0, 32) then w
        else t.selected)
  }

  /** A target that acknowledges everything. */
  ghost predicate Obliging(d: Device) {
    forall t, r :: AckOf(d.answer(t, r)) == SWD_OK
  }

  /** The simplest target that is faithful and obliging. */
  function PlainDevice(): Device {
    Device((t, r) => Answer(true, false, false, Zeros(32), false, t),
           (t: DebugPort, r, w: Word, p) => if IsSelect(r) && p == Odd(w, 0, 32) then t.(selected := w) else t,
           t => t)
  }

  lemma PlainDeviceIsFaithful()
    ensures Faithful(PlainDevice()) && Obliging(PlainDevice())
  {
  }

  /**
   * A transaction on the wire, which address it was meant for, and the word that was written, or that the target
   * sent.
   */
  datatype Transfer = Transfer(r: Request, selected: Word, wanted: Word, ack: nat, data: Word)

  function Zeros(n: nat): seq<bool> {
    seq(n, _ => false)
  }

  class SWDInterfaceBase {
    const device: Device
    var port: DebugPort
    /** Every bit the programmer drove, in order. */
    var wire: seq<bool>
    ghost var log: seq<Transfer>

    constructor (device: Device, port: DebugPort)
      ensures this.device == device && this.port == port && wire == [] && log == []
    {
      this.device, this.port, wire, log := device, port, [], [];
    }

    method WriteBit(v: bool)
      modifies `wire
      ensures wire == old(wire) + [v]
    {
      wire := wire + [v];
    }

    /** The lowest bit first. */
    method WriteWord32(data: Word)
      modifies `wire
      ensures wire == old(wire) + data
    {
      var shifted := data;
      var i := 0;
      while i < 32
        invariant 0 <= i <= 32 && wire == old(wire) + data[..i]
        invariant forall k :: 0 <= k < 32 ==> shifted[k] == (k + i < 32 && data[k + i])
      {
        WriteBit(shifted[0]);
        shifted := shifted[1..] + [false];
        i := i + 1;
      }
    }

    method LineIdle()
      modifies `wire
      ensures wire == old(wire) + Zeros(8)
    {
      var i := 0;
      while i < 8
        invariant 0 <= i <= 8 && wire == old(wire) + Zeros(i)
      {
        WriteBit(false);
        i := i + 1;
      }
    }

    method WriteHeader(r: Request)
      modifies `wire
      ensures wire == old(wire) + [false] + Header(r)
    {
      WriteBit(false);
      var parity := Xor(Xor(Xor(r.read, r.ap), r.a2), r.a3);
      WriteBit(true);
      WriteBit(r.ap);
      WriteBit(r.read);
      WriteBit(r.a2);
      WriteBit(r.a3);
      WriteBit(parity);
      WriteBit(false);
      WriteBit(true);
    }

    /** Reads the data bits of an answer into a word: each comes in at the top. */
    static method ReadWord32(bits: Word) returns (data: Word)
      ensures data == bits
    {
      data := seq(32, _ => false);
      var i := 0;
      while i < 32
        invariant 0 <= i <= 32
        invariant forall k :: 0 <= k < 32 ==> data[k] == (k + i >= 32 && bits[k + i - 32])
      {
        data := data[1..] + [false];
        if bits[i] { data := data[31 := true]; }
        i := i + 1;
      }
    }

    /**
     * A read. An acknowledged answer with the wrong parity is reported as a failure. The target has seen the header,
     * and the word is the one it sent.
     */
    method DoReadTransaction(ap: bool, a2: bool, a3: bool, ghost wanted: Word) returns (ack: nat, data: Word)
      modifies this
      ensures var a := device.answer(old(port), Request(ap, true, a2, a3));
              && port == a.next &&
                 log == old(log) + [Transfer(Request(ap, true, a2, a3), old(port).selected, wanted, AckOf(a), a.data)]
              && ack == (if AckOf(a) == SWD_OK && Odd(a.data, 0, 32) != a.parity then SWD_FAIL else AckOf(a))
              && (ack == SWD_OK ==> data == a.data)
              && old(wire) + [false] + Header(Request(ap, true, a2, a3)) <= wire
    {
      var r := Request(ap, true, a2, a3);
      WriteHeader(r);
      var a := device.answer(port, r);
      log := log + [Transfer(r, port.selected, wanted, AckOf(a), a.data)];
      port := a.next;
      ack, data := AckOf(a), seq(32, _ => false);
      if ack == SWD_OK {
        data := ReadWord32(a.data);
        var parity := CalcParity(data);
        if parity != a.parity { ack := SWD_FAIL; }
        WriteBit(false);
        LineIdle();
      } else if ack != SWD_FAIL && ack != SWD_WAIT {
        LineIdle();
      }
    }

    /** A write. After an OK the target gets the word and its parity. */
    method DoWriteTransaction(ap: bool, a2: bool, a3: bool, data: Word, ghost wanted: Word) returns (ack: nat)
      modifies this
      ensures var r := Request(ap, false, a2, a3); var a := device.answer(old(port), r);
              && ack == AckOf(a) && log == old(log) + [Transfer(r, old(port).selected, wanted, ack, data)]
              && port == (if ack == SWD_OK then device.accept(a.next, r, data, Odd(data, 0, 32)) else a.next)
              && old(wire) + [false] + Header(r) <= wire
              && (ack == SWD_OK ==> wire == old(wire) + [false] + Header(r) + data + [Odd(data, 0, 32)] + Zeros(8))
    {
      var r := Request(ap, false, a2, a3);
      WriteHeader(r);
      var a := device.answer(port, r);
      ack := AckOf(a);
      log := log + [Transfer(r, port.selected, wanted, ack, data)];
      port := a.next;
      if ack == SWD_OK {
        WriteWord32(data);
        var parity := CalcParity(data);
        WriteBit(parity);
        port := device.accept(port, r, data, parity);
        LineIdle();
      } else if ack != SWD_FAIL && ack != SWD_WAIT {
        LineIdle();
      }
    }
  }
}

/** The middle level: retries, and the access port that is selected. */
module AccessPort {
  import opened SerialWire
  import opened MemoryPort

  const STATUS_OK := 0
  const STATUS_TIMEOUT := 1
  const STATUS_SWDFAULT := 2

  const MAX_RETRIES := 10

  /** 0xFF0000F0: the port number and the bank of an address. */
  function Masked(address: Word): Word {
    seq(32, i requires 0 <= i < 32 => address[i] && (i >= 24 || 4 <= i < 8))
  }

  /** 0xFFFFFFFF */
  function Invalid(): Word {
    seq(32, _ => true)
  }

  function NumberWord(n: nat): Word {
    seq(32, i requires 0 <= i < 32 => BitOf(n, i))
  }

  function BitOf(n: nat, i: nat): bool {
    if i == 0 then n % 2 == 1 else BitOf(n / 2, i - 1)
  }

  /** Bits 24 to 31, the access port, and 4 to 7, its bank, are those of the address, and no other bit is set. */
  ghost predicate Selects(selected: Word, address: Word) {
    && (forall i :: 24 <= i < 32 ==> selected[i] == address[i])
    && (forall i :: 4 <= i < 8 ==> selected[i] == address[i])
    && (forall i :: 0 <= i < 4 || 8 <= i < 24 ==> !selected[i])
  }

  /** The programmer masks an address to exactly what selects its port and bank. */
  lemma SelectsIff(selected: Word, address: Word)
    ensures Selects(selected, address) <==> selected == Masked(address)
  {
  }

  /** The access was made to the port, bank and register of the address it was meant for. */
  ghost predicate Reached(t: Transfer) {
    t.r.ap ==> Selects(t.selected, t.wanted) && t.r.a2 == t.wanted[2] && t.r.a3 == t.wanted[3]
  }

  ghost predicate AllReached(log: seq<Transfer>) {
    forall k :: 0 <= k < |log| ==> Reached(log[k])
  }

  /**
   * From one log to the next: at most ten attempts at r, all but the last answered WAIT. data is the word of a write.
   */
  ghost predicate Attempts(before: seq<Transfer>, after: seq<Transfer>, r: Request, selected: Word, wanted: Word,
                           data: Word) {
    && |before| < |after| <= |before| + MAX_RETRIES && before == after[..|before|]
    && (forall k :: |before| <= k < |after| ==>
        after[k].r == r && after[k].selected == selected &&
        after[k].wanted == wanted && (!r.read ==> after[k].data == data))
    && (forall k :: |before| <= k < |after| - 1 ==> after[k].ack == SWD_WAIT)
  }

  /** The status a series of attempts ends with. */
  ghost predicate Reports(after: seq<Transfer>, before: seq<Transfer>, stat: int)
    requires |before| < |after|
  {
    var last := after[|after| - 1].ack;
    && (stat == STATUS_TIMEOUT <==> last == SWD_WAIT) && (stat == STATUS_TIMEOUT ==> |after| == |before| + MAX_RETRIES)
    && (stat == STATUS_OK ==> last == SWD_OK)
    && (stat == STATUS_OK || stat == STATUS_TIMEOUT || stat == STATUS_SWDFAULT)
  }

  class ArduinoSWDInterface {
    const line: SWDInterfaceBase
    var apCache: Word

    constructor (device: Device, port: DebugPort)
      requires Faithful(device)
      ensures Valid() && fresh(line) && line.device == device && line.port == port && line.log == []
    {
      line := new SWDInterfaceBase(device, port);
      apCache := Invalid();
    }

    ghost function Select(): Word
      reads line
    {
      line.port.selected
    }

    /** The cache is not in use, or it is what the target has selected. Every access so far reached its address. */
    ghost predicate Valid()
      reads this, line
    {
      Faithful(line.device) && (apCache == Invalid() || apCache == Select()) && AllReached(line.log)
    }

    method ReadWithRetries(ap: bool, a2: bool, a3: bool, ghost wanted: Word) returns (stat: int, data: Word)
      requires Faithful(line.device)
      modifies line
      ensures Attempts(old(line.log), line.log, Request(ap, true, a2, a3), old(Select()), wanted, Zeros(32)) &&
              Reports(line.log, old(line.log), stat)
      ensures Select() == old(Select()) && (stat == STATUS_OK ==> data == line.log[|line.log| - 1].data)
    {
      ghost var log0 := line.log;
      var retries := 0;
      var ack;
      ack, data := line.DoReadTransaction(ap, a2, a3, wanted);
      while ack == SWD_WAIT
        invariant 0 <= retries < MAX_RETRIES && |line.log| == |log0| + retries + 1 && Select() == old(Select())
        invariant Attempts(log0, line.log, Request(ap, true, a2, a3), old(Select()), wanted, Zeros(32))
        invariant ack == line.log[|line.log| - 1].ack || (ack == SWD_FAIL && line.log[|line.log| - 1].ack == SWD_OK)
        invariant ack == SWD_OK ==> data == line.log[|line.log| - 1].data
        decreases MAX_RETRIES - retries
      {
        retries := retries + 1;
        if retries == MAX_RETRIES { return STATUS_TIMEOUT, data; }
        ack, data := line.DoReadTransaction(ap, a2, a3, wanted);
      }
      stat := if ack == SWD_OK then STATUS_OK else STATUS_SWDFAULT;
    }

    method WriteWithRetries(ap: bool, a2: bool, a3: bool, data: Word, ghost wanted: Word) returns (stat: int)
      requires Faithful(line.device)
      modifies line
      ensures Attempts(old(line.log), line.log, Request(ap, false, a2, a3), old(Select()), wanted, data) &&
              Reports(line.log, old(line.log), stat)
      ensures stat == STATUS_OK <==> line.log[|line.log| - 1].ack == SWD_OK
      ensures Select() == if IsSelect(Request(ap, false, a2, a3)) && stat == STATUS_OK then data else old(Select())
      ensures Obliging(line.device) ==> stat == STATUS_OK
    {
      ghost var log0 := line.log;
      var retries := 0;
      var ack := line.DoWriteTransaction(ap, a2, a3, data, wanted);
      while ack == SWD_WAIT
        invariant 0 <= retries < MAX_RETRIES && |line.log| == |log0| + retries + 1 &&
                  ack == line.log[|line.log| - 1].ack
        invariant Attempts(log0, line.log, Request(ap, false, a2, a3), old(Select()), wanted, data)
        invariant Select() == if IsSelect(Request(ap, false, a2, a3)) && ack == SWD_OK then data else old(Select())
        invariant Obliging(line.device) ==> ack == SWD_OK
        decreases MAX_RETRIES - retries
      {
        retries := retries + 1;
        if retries == MAX_RETRIES { return STATUS_TIMEOUT; }
        ack := line.DoWriteTransaction(ap, a2, a3, data, wanted);
      }
      stat := if ack == SWD_OK then STATUS_OK else STATUS_SWDFAULT;
    }

    /**
     * A raw write to a debug port register. The cache stays right unless it is an effective write of something else
     * to SELECT.
     */
    method WriteDP(address: Word, data: Word) returns (stat: int)
      requires Faithful(line.device)
      modifies line
      ensures Attempts(old(line.log), line.log, Request(false, false, address[2], address[3]), old(Select()), address,
                       data)
      ensures Reports(line.log, old(line.log), stat)
      ensures Select() == if !address[2] && address[3] && stat == STATUS_OK then data else old(Select())
      ensures old(Valid()) ==> (Valid() <==>
                                !(RawSelect(address) && stat == STATUS_OK) || apCache == Invalid() || apCache == data)
      ensures Obliging(line.device) ==> stat == STATUS_OK
    {
      stat := WriteWithRetries(false, address[2], address[3], data, address);
    }

    method ReadDP(address: Word) returns (stat: int, data: Word)
      requires Faithful(line.device)
      modifies line
      ensures Attempts(old(line.log), line.log, Request(false, true, address[2], address[3]), old(Select()), address,
                       Zeros(32))
      ensures Reports(line.log, old(line.log), stat) && Select() == old(Select()) &&
              (stat == STATUS_OK ==> data == line.log[|line.log| - 1].data)
    {
      stat, data := ReadWithRetries(false, address[2], address[3], address);
    }

    /** Makes the target select the port and bank of an address, unless the cache says it has. */
    method SelectAP(address: Word) returns (stat: int)
      requires Faithful(line.device)
      modifies this, line
      ensures old(Valid()) ==> Valid() && (stat == STATUS_OK ==> Selects(Select(), address))
      ensures old(apCache) == Masked(address) ==>
              stat == STATUS_OK && line.log == old(line.log) && line.port == old(line.port)
      ensures stat == STATUS_OK ==> apCache == Masked(address)
      ensures Obliging(line.device) ==> stat == STATUS_OK
      ensures old(line.log) <= line.log && |line.log| <= |old(line.log)| + MAX_RETRIES
      ensures stat == STATUS_OK || stat == STATUS_TIMEOUT || stat == STATUS_SWDFAULT
      ensures After(line.log) == After(old(line.log))
    {
      var ap := Masked(address);
      assert !ap[0] && Invalid()[0];
      SelectsIff(ap, address);
      if ap == apCache { return STATUS_OK; }
      SelectRegister();
      stat := WriteDP(NumberWord(0x08), ap);
      NotTaken(old(line.log), line.log);
      if old(Valid()) { DebugPortReaches(old(line.log), line.log); }
      if stat == STATUS_OK {
        apCache := ap;
      }
    }

    method WriteAP(address: Word, data: Word) returns (stat: int)
      requires Valid()
      modifies this, line
      ensures Valid() && (stat == STATUS_OK ==>
                          Accessed(line.log, |line.log| - 1, address, false, data) && |line.log| > |old(line.log)|)
      ensures old(line.log) <= line.log && |line.log| <= |old(line.log)| + 2 * MAX_RETRIES
      ensures After(line.log) == if stat == STATUS_OK then Step(After(old(line.log)), line.log[|line.log| - 1])
                                 else After(old(line.log))
    {
      hide After;
      stat := SelectAP(address);
      if stat != STATUS_OK { return; }
      ghost var before := line.log;
      stat := WriteWithRetries(true, address[2], address[3], data, address);
      OnlyLastIsTaken(before, line.log, Request(true, false, address[2], address[3]), Select(), address, data);
      AccessReaches(before, line.log, Request(true, false, address[2], address[3]), Select(), address, data);
    }

    /**
     * An access port is read through the read buffer of the debug port: the word is what the buffer held right after
     * the access.
     */
    method ReadAP(address: Word) returns (stat: int, data: Word)
      requires Faithful(line.device)
      modifies this, line
      ensures old(line.log) <= line.log && |line.log| <= |old(line.log)| + 3 * MAX_RETRIES
      ensures old(Valid()) ==> Valid()
      ensures old(Valid()) && stat == STATUS_OK ==>
              exists k :: |old(line.log)| <= k < |line.log| && ReadBack(line.log, k, address, data) &&
                After(line.log[..k]) == After(old(line.log))
      ensures OnlyRead(After(old(line.log)), After(line.log), address)
      ensures old(apCache) == Masked(address) ==>
        |line.log| > |old(line.log)| && ReadsFrom(line.log[|old(line.log)|], address, old(Select()))
    {
      hide After;
      data := seq(32, _ => false);
      stat := SelectAP(address);
      if stat != STATUS_OK { return; }
      ghost var before, selected := line.log, Select();
      stat, data := ReadWithRetries(true, address[2], address[3], address);
      ghost var read, valid := line.log, old(Valid());
      ReadIsTaken(before, read, read, selected, address);
      if valid {
        AccessReaches(before, read, Request(true, true, address[2], address[3]), selected, address, Zeros(32));
      }
      if stat != STATUS_OK { return; }
      stat, data := ReadDP(NumberWord(0x0C));
      ReadBufferRegister();
      ReadIsTaken(before, read, line.log, selected, address);
      if valid {
        DebugPortReaches(read, line.log);
        if stat == STATUS_OK { IsReadBack(before, read, line.log, selected, address, data); }
      }
    }

    /** Resets the target, after which nothing is known to be selected, and reads its identification. */
    method TryConnect() returns (stat: int, idcode: Word)
      requires Valid()
      modifies this, line
      ensures Valid() && apCache == Invalid() && old(line.log) <= line.log && |line.log| == |old(line.log)| + 1
      ensures var last := line.log[|line.log| - 1];
              && last.r == Request(false, true, false, false)
              && (stat == STATUS_OK ==> last.ack == SWD_OK && idcode == last.data) &&
                 (last.ack != SWD_OK ==> stat == STATUS_SWDFAULT)
    {
      apCache := Invalid();
      line.port := line.device.reset(line.port);
      var ack;
      ack, idcode := line.DoReadTransaction(false, false, false, NumberWord(0));
      stat := if ack == SWD_OK then STATUS_OK else STATUS_SWDFAULT;
    }

    /** Polls the busy bit of the memory port until it is clear. */
    method WaitForMemory() returns (stat: int)
      requires Valid()
      modifies this, line
      ensures Valid() && old(line.log) <= line.log
      ensures stat == STATUS_OK ==>
              exists k, csw: Word :: |old(line.log)| <= k && ReadBack(line.log, k, CSW(), csw) && !csw[7]
      ensures After(line.log) == After(old(line.log))
    {
      PortRegisters();
      var retries := 0;
      var data;
      stat, data := ReadAP(CSW());
      while stat == STATUS_OK
        invariant Valid() && old(line.log) <= line.log && 0 <= retries <= MAX_RETRIES
        invariant After(line.log) == After(old(line.log))
        invariant stat == STATUS_OK ==>
                  exists k :: |old(line.log)| <= k < |line.log| && ReadBack(line.log, k, CSW(), data)
        decreases MAX_RETRIES - retries
      {
        if !data[7] { return STATUS_OK; }
        if retries == MAX_RETRIES { return STATUS_TIMEOUT; }
        retries := retries + 1;
        stat, data := ReadAP(CSW());
      }
    }

    /** Sets the memory port up for an access to an address. */
    method SetAddress(address: Word) returns (stat: int)
      requires Valid()
      modifies this, line
      ensures Valid() && old(line.log) <= line.log
      ensures stat == STATUS_OK ==> AddressSet(line.log, |old(line.log)|, address, |line.log|)
      ensures After(line.log).memory == After(old(line.log)).memory
      ensures stat == STATUS_OK ==> After(line.log).wide && After(line.log).address == Known(address)
    {
      PortRegisters();
      stat := WriteAP(CSW(), CSW_WORD_ACCESS());
      if stat != STATUS_OK { return; }
      ghost var i := |line.log| - 1;
      stat := WaitForMemory();
      if stat != STATUS_OK { return; }
      ghost var idle := line.log;
      stat := WriteAP(TAR(), address);
      if stat != STATUS_OK { return; }
      assert line.log[..|idle|] == idle && IdleAt(line.log, i, |idle|);
      assert Accessed(line.log, i, CSW(), false, CSW_WORD_ACCESS());
    }

    method ReadMemory(address: Word) returns (stat: int, data: Word)
      requires Valid()
      modifies this, line
      ensures Valid() && old(line.log) <= line.log
      ensures stat == STATUS_OK ==>
                exists k :: ReadBack(line.log, k, DRW(), data) && AddressSet(line.log, |old(line.log)|, address, k) &&
                  After(line.log[..k]) == Port(true, Known(address), After(old(line.log)).memory)
      ensures var memory := After(old(line.log)).memory;
              stat == STATUS_OK && GivesWhatItHas(line.log) && address in memory ==> data == memory[address]
      ensures After(line.log).memory == After(old(line.log)).memory
    {
      PortRegisters();
      data := seq(32, _ => false);
      stat := SetAddress(address);
      if stat != STATUS_OK { return; }
      ghost var before := line.log;
      stat, data := ReadAP(DRW());
      if stat == STATUS_OK {
        ghost var k :| |before| <= k < |line.log| && ReadBack(line.log, k, DRW(), data) &&
          After(line.log[..k]) == After(before);
        StillSet(before, line.log, |old(line.log)|, address, k);
      }
    }

    method WriteMemory(address: Word, value: Word) returns (stat: int)
      requires Valid()
      modifies this, line
      ensures Valid() && old(line.log) <= line.log
      ensures stat == STATUS_OK ==>
                exists k :: Accessed(line.log, k, DRW(), false, value) &&
                  AddressSet(line.log, |old(line.log)|, address, k)
      ensures var before := After(old(line.log)).memory;
              After(line.log).memory == if stat == STATUS_OK then before[address := value] else before
    {
      PortRegisters();
      stat := SetAddress(address);
      if stat != STATUS_OK { return; }
      ghost var before := line.log;
      stat := WriteAP(DRW(), value);
      if stat == STATUS_OK { StillSet(before, line.log, |old(line.log)|, address, |line.log| - 1); }
    }

    /** Any run without a raw write to SELECT keeps the cache right, and every access in it reaches its address. */
    method Run(list: seq<Op>)
      requires Valid() && forall k :: 0 <= k < |list| ==> !WritesSelect(list[k])
      modifies this, line
      ensures Valid() && AllReached(line.log) && old(line.log) <= line.log
    {
      var i := 0;
      while i < |list|
        invariant 0 <= i <= |list| && Valid() && old(line.log) <= line.log
      {
        Do(list[i]);
        i := i + 1;
      }
    }

    method Do(op: Op)
      requires Valid() && !WritesSelect(op)
      modifies this, line
      ensures Valid() && old(line.log) <= line.log
    {
      match op {
        case ConnectOp => var _, _ := TryConnect();
        case ReadDPOp(a) => var _, _ := ReadDP(a); DebugPortReaches(old(line.log), line.log);
        case WriteDPOp(a, d) => var _ := WriteDP(a, d); DebugPortReaches(old(line.log), line.log);
        case ReadAPOp(a) => var _, _ := ReadAP(a);
        case WriteAPOp(a, d) => var _ := WriteAP(a, d);
        case ReadMemoryOp(a) => var _, _ := ReadMemory(a);
        case WriteMemoryOp(a, d) => var _ := WriteMemory(a, d);
      }
    }
  }

  /** The transfer is a read meant for the address, while the target had something selected. */
  predicate ReadsFrom(t: Transfer, address: Word, selected: Word) {
    t.r == Request(true, true, address[2], address[3]) && t.wanted == address && t.selected == selected
  }

  /**
   * Whatever a raw write to SELECT selects but what is cached, a target exists where it breaks the cache: after
   * selecting the port of an address and the raw write, a read of that address goes to what the raw write selected.
   */
  method RawSelectMisleads(rest: PortState, first: Word, a: Word, address: Word, d: Word)
    returns (interface: ArduinoSWDInterface, ghost k: nat)
    requires RawSelect(address) && !Selects(d, a)
    ensures Faithful(interface.line.device) && Obliging(interface.line.device) && !interface.Valid()
    ensures k < |interface.line.log| && ReadsFrom(interface.line.log[k], a, d) && !Reached(interface.line.log[k])
  {
    PlainDeviceIsFaithful();
    SelectsIff(d, a);
    interface := new ArduinoSWDInterface(PlainDevice(), DebugPort(first, rest));
    var stat := interface.SelectAP(a);
    stat := interface.WriteDP(address, d);
    k := |interface.line.log|;
    var data;
    stat, data := interface.ReadAP(a);
  }

  datatype Op =
    | ConnectOp
    | ReadDPOp(address: Word)
    | WriteDPOp(address: Word, data: Word)
    | ReadAPOp(address: Word)
    | WriteAPOp(address: Word, data: Word)
    | ReadMemoryOp(address: Word)
    | WriteMemoryOp(address: Word, data: Word)

  /** The debug port register at the address is SELECT, for a write. */
  predicate RawSelect(address: Word) {
    !address[2] && address[3]
  }

  predicate WritesSelect(op: Op) {
    op.WriteDPOp? && RawSelect(op.address)
  }

  /** Transfer k is an acknowledged access to the address, data the word of a write. */
  ghost predicate Accessed(log: seq<Transfer>, k: int, address: Word, read: bool, data: Word) {
    0 <= k < |log| &&
    var t := log[k];
    t.r == Request(true, read, address[2], address[3]) && Selects(t.selected, address) && t.ack == SWD_OK &&
      (!read ==> t.data == data)
  }

  /**
   * After the acknowledged read k there is nothing but reads of the read buffer, the last of which was acknowledged
   * with data.
   */
  ghost predicate ReadBack(log: seq<Transfer>, k: int, address: Word, data: Word) {
    && Accessed(log, k, address, true, data) && k < |log| - 1
    && (forall j :: k < j < |log| ==> log[j].r == Request(false, true, true, true))
    && log[|log| - 1].ack == SWD_OK && log[|log| - 1].data == data
  }

  /** After transfer `from` the memory port reported itself idle, when the log was n transfers long. */
  ghost predicate IdleAt(log: seq<Transfer>, from: int, n: nat) {
    n <= |log| && exists k, csw: Word :: from < k && ReadBack(log[..n], k, CSW(), csw) && !csw[7]
  }

  /**
   * From `start` on, the log holds acknowledged writes of the memory port's control and address registers, in this
   * order, before `end`, and the port was idle in between.
   */
  ghost predicate AddressSet(log: seq<Transfer>, start: nat, address: Word, end: int) {
    exists i, n, j {:trigger Accessed(log, i, CSW(), false, CSW_WORD_ACCESS()), IdleAt(log, i, n),
                    Accessed(log, j, TAR(), false, address)} ::
      start <= i < n <= j < end && Accessed(log, i, CSW(), false, CSW_WORD_ACCESS()) && IdleAt(log, i, n) &&
        Accessed(log, j, TAR(), false, address)
  }

  // registers of the memory access port, and 32-bit accesses through it
  function CSW(): Word { NumberWord(0x00) }
  function TAR(): Word { NumberWord(0x04) }
  function DRW(): Word { NumberWord(0x0C) }
  function CSW_WORD_ACCESS(): Word { NumberWord(0x2200_0012) }

  lemma StillSet(before: seq<Transfer>, after: seq<Transfer>, start: nat, address: Word, end: int)
    requires before <= after && AddressSet(before, start, address, |before|) && |before| <= end
    ensures AddressSet(after, start, address, end)
  {
    var i, n, j :| start <= i < n <= j < |before| && Accessed(before, i, CSW(), false, CSW_WORD_ACCESS()) &&
      IdleAt(before, i, n)
      && Accessed(before, j, TAR(), false, address);
    assert after[..n] == before[..n];
    assert Accessed(after, i, CSW(), false, CSW_WORD_ACCESS()) && IdleAt(after, i, n) &&
           Accessed(after, j, TAR(), false, address);
  }

  /** The word read back last, if it was read where something had been written, is what had been written. */
  ghost predicate GivesWhatItHas(log: seq<Transfer>) {
    forall k, data: Word :: ReadBack(log, k, DRW(), data) ==>
      var p := After(log[..k]);
      p.wide && p.address.Known? && p.address.word in p.memory ==> data == p.memory[p.address.word]
  }

  /** A read has no effect on the port but that an access to memory makes its address unknown. */
  ghost predicate OnlyRead(before: Port, after: Port, address: Word) {
    after == before || (address[2] && address[3] && after == before.(address := Unknown))
  }

  /** Of a series of attempts the port takes the last at most. */
  lemma {:induction false} OnlyLastIsTaken(before: seq<Transfer>, after: seq<Transfer>, r: Request, selected: Word,
                                           wanted: Word, data: Word)
    requires Attempts(before, after, r, selected, wanted, data)
    ensures After(after[..|after| - 1]) == After(before)
    ensures After(after) == Step(After(before), after[|after| - 1])
    ensures after[|after| - 1].ack != SWD_OK ==> After(after) == After(before)
  {
    NotTaken(before, after[..|after| - 1]);
  }

  /** A read of the access port, and then reads of the debug port. */
  lemma {:induction false} ReadIsTaken(before: seq<Transfer>, read: seq<Transfer>, after: seq<Transfer>,
                                       selected: Word, address: Word)
    requires Attempts(before, read, Request(true, true, address[2], address[3]), selected, address, Zeros(32))
    requires read <= after && forall k :: |read| <= k < |after| ==> !after[k].r.ap
    ensures OnlyRead(After(before), After(after), address)
    ensures before <= after && after[|before|] == read[|before|]
  {
    OnlyLastIsTaken(before, read, Request(true, true, address[2], address[3]), selected, address, Zeros(32));
    NotTaken(read, after);
    assert after[|before|] == after[..|read|][|before|];
  }

  /** If both were acknowledged the word in the read buffer is the one that was read. */
  lemma {:induction false} IsReadBack(before: seq<Transfer>, read: seq<Transfer>, after: seq<Transfer>, selected: Word,
                                      address: Word, data: Word)
    requires Attempts(before, read, Request(true, true, address[2], address[3]), selected, address, Zeros(32))
    requires Selects(selected, address) && read[|read| - 1].ack == SWD_OK
    requires read < after && forall k :: |read| <= k < |after| ==> after[k].r == Request(false, true, true, true)
    requires after[|after| - 1].ack == SWD_OK && after[|after| - 1].data == data
    ensures |before| <= |read| - 1 && ReadBack(after, |read| - 1, address, data)
    ensures After(after[..|read| - 1]) == After(before)
  {
    OnlyLastIsTaken(before, read, Request(true, true, address[2], address[3]), selected, address, Zeros(32));
    assert after[..|read| - 1] == read[..|read| - 1] && after[|read| - 1] == read[|read| - 1];
  }

  lemma PortRegisters()
    ensures !CSW()[2] && !CSW()[3] && TAR()[2] && !TAR()[3] && DRW()[2] && DRW()[3] && IsWide(CSW_WORD_ACCESS())
    ensures forall i :: 4 <= i < 32 ==> !CSW()[i] && !TAR()[i] && !DRW()[i]
  {
    forall i | 4 <= i < 32 ensures !CSW()[i] && !TAR()[i] && !DRW()[i] {
      NoBit(i - 4);
      FourBits(0x00, i);
      FourBits(0x04, i);
      FourBits(0x0C, i);
    }
  }

  lemma FourBits(n: nat, i: nat)
    requires i >= 4
    ensures BitOf(n, i) == BitOf(n / 16, i - 4)
  {
    assert BitOf(n, i) == BitOf(n / 2, i - 1) == BitOf(n / 2 / 2, i - 2) == BitOf(n / 2 / 2 / 2, i - 3);
  }

  lemma {:induction false} NoBit(i: nat)
    ensures !BitOf(0, i)
  {
    if i > 0 { NoBit(i - 1); }
  }

  lemma SelectRegister()
    ensures !NumberWord(0x08)[2] && NumberWord(0x08)[3]
  {
    assert BitOf(8, 2) == BitOf(4, 1) == BitOf(2, 0);
    assert BitOf(8, 3) == BitOf(4, 2) == BitOf(2, 1) == BitOf(1, 0);
  }

  lemma ReadBufferRegister()
    ensures NumberWord(0x0C)[2] && NumberWord(0x0C)[3]
  {
    assert BitOf(12, 2) == BitOf(6, 1) == BitOf(3, 0);
    assert BitOf(12, 3) == BitOf(6, 2) == BitOf(3, 1) == BitOf(1, 0);
  }

  lemma DebugPortReaches(before: seq<Transfer>, after: seq<Transfer>)
    requires AllReached(before) && before <= after && forall k :: |before| <= k < |after| ==> !after[k].r.ap
    ensures AllReached(after)
  {
  }

  lemma AccessReaches(before: seq<Transfer>, after: seq<Transfer>, r: Request, selected: Word, wanted: Word,
                      data: Word)
    requires AllReached(before) && Attempts(before, after, r, selected, wanted, data) && Selects(selected, wanted)
    requires r.a2 == wanted[2] && r.a3 == wanted[3]
    ensures AllReached(after) && before <= after
  {
  }
}
