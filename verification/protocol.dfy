/** The Swagger protocol: packets of commands from the host, one reply packet from the programmer. */
module Protocol {
  import opened Bytes
  import opened Cobs

  type word = w: int | 0 <= w < 0x1_0000_0000

  /** The target and its debug port. */
  type Target(!new)

  const TXCMD_CONNECT := 0
  const TXCMD_RESET := 1
  const TXCMD_READAP := 2
  const TXCMD_WRITEAP := 3
  const TXCMD_READDP := 4
  const TXCMD_WRITEDP := 5
  const TXCMD_READMEM := 6
  const TXCMD_WRITEMEM := 7
  const TXCMD_WAITMEMTRUE := 8
  const TXCMD_GETPROGID := 0xFF

  const STATUS_OK := 0
  const STATUS_TIMEOUT := 1
  const STATUS_RXOVERFLOW := 3
  const STATUS_UNKNOWNCMD := 5

  const BUFFER_SIZE := 64
  const MAX_RETRIES := 100

  datatype Outcome = Outcome(stat: byte, data: word, target: Target)

  /** The programmer's access to the target: a status, a word read, and the target afterwards. */
  datatype Probe = Probe(
    setReset: (Target, bool) -> Target,
    connect: Target -> Outcome,
    readDP: (Target, byte) -> Outcome,
    writeDP: (Target, byte, word) -> Outcome,
    readAP: (Target, word) -> Outcome,
    writeAP: (Target, word, word) -> Outcome,
    readMemory: (Target, word) -> Outcome,
    writeMemory: (Target, word, word) -> Outcome)

  /** Bit k of x. */
  predicate Bit(x: nat, k: nat) {
    if k == 0 then x % 2 == 1 else Bit(x / 2, k - 1)
  }

  /** (data & mask) == mask */
  predicate AllSet(data: nat, mask: nat) {
    mask == 0 || ((mask % 2 == 1 ==> data % 2 == 1) && AllSet(data / 2, mask / 2))
  }

  lemma {:induction false} NoBits(k: nat)
    ensures !Bit(0, k)
  {
    if k > 0 { NoBits(k - 1); }
  }

  /** All bits of the mask are set exactly if each of them is. */
  lemma {:induction false} AllSetIff(data: nat, mask: nat)
    ensures AllSet(data, mask) <==> HasBitsOf(data, mask)
  {
    if mask == 0 {
      forall k: nat ensures !Bit(0, k) { NoBits(k); }
    } else {
      AllSetIff(data / 2, mask / 2);
      HalvesHaveBits(data, mask);
    }
  }

  ghost predicate HasBitsOf(data: nat, mask: nat) {
    forall k: nat :: Bit(mask, k) ==> Bit(data, k)
  }

  lemma {:induction false} HalvesHaveBits(data: nat, mask: nat)
    ensures HasBitsOf(data, mask) <==> (mask % 2 == 1 ==> data % 2 == 1) && HasBitsOf(data / 2, mask / 2)
  {
    if HasBitsOf(data, mask) {
      var k0: nat := 0;
      assert Bit(mask, k0) ==> Bit(data, k0);
      forall k: nat | Bit(mask / 2, k) ensures Bit(data / 2, k) { assert Bit(mask, k + 1); }
      assert HasBitsOf(data / 2, mask / 2);
    }
    if (mask % 2 == 1 ==> data % 2 == 1) && HasBitsOf(data / 2, mask / 2) {
      forall k: nat | Bit(mask, k) ensures Bit(data, k) {
        if k > 0 { assert Bit(mask / 2, k - 1); }
      }
      assert HasBitsOf(data, mask);
    }
  }

  datatype Command =
    | Connect
    | Reset(state: byte)
    | ReadAP(address: word)
    | WriteAP(address: word, data: word)
    | ReadDP(register: byte)
    | WriteDP(register: byte, data: word)
    | ReadMem(address: word)
    | WriteMem(address: word, data: word)
    | WaitMem(address: word, mask: word)
    | GetProgId
    | Unknown(code: byte)

  predicate IsKnown(code: byte) {
    code <= TXCMD_WAITMEMTRUE || code == TXCMD_GETPROGID
  }

  predicate IsCommand(c: Command) {
    c.Unknown? ==> !IsKnown(c.code)
  }

  /** A 32-bit word, the lowest byte first. */
  function WordBytes(w: word): (b: seq<byte>)
    ensures |b| == 4
  {
    [w % 256, w / 256 % 256, w / 0x1_0000 % 256, w / 0x100_0000]
  }

  function WordOf(b: seq<byte>): word
    requires |b| >= 4
  {
    var b0: int, b1: int, b2: int, b3: int := b[0], b[1], b[2], b[3];
    b0 + 256 * b1 + 0x1_0000 * b2 + 0x100_0000 * b3
  }

  lemma WordRoundTrip(w: word)
    ensures WordOf(WordBytes(w)) == w
  {
    var q1 := w / 256;
    var q2 := q1 / 256;
    assert w / 0x1_0000 == q2 && w / 0x100_0000 == q2 / 256;
  }

  function BytesOf(c: Command): (b: seq<byte>)
    ensures |b| > 0
  {
    match c
    case Connect => [TXCMD_CONNECT]
    case Reset(state) => [TXCMD_RESET, state]
    case ReadAP(a) => [TXCMD_READAP] + WordBytes(a)
    case WriteAP(a, d) => [TXCMD_WRITEAP] + WordBytes(a) + WordBytes(d)
    case ReadDP(r) => [TXCMD_READDP, r]
    case WriteDP(r, d) => [TXCMD_WRITEDP, r] + WordBytes(d)
    case ReadMem(a) => [TXCMD_READMEM] + WordBytes(a)
    case WriteMem(a, d) => [TXCMD_WRITEMEM] + WordBytes(a) + WordBytes(d)
    case WaitMem(a, m) => [TXCMD_WAITMEMTRUE] + WordBytes(a) + WordBytes(m)
    case GetProgId => [TXCMD_GETPROGID]
    case Unknown(code) => [code]
  }

  /** Where the words of a command are in its bytes. */
  lemma WordsOf(c: Command)
    ensures var b := BytesOf(c);
            match c
            case ReadAP(a) => |b| == 5 && WordOf(b[1..5]) == a
            case ReadMem(a) => |b| == 5 && WordOf(b[1..5]) == a
            case WriteAP(a, d) => |b| == 9 && WordOf(b[1..5]) == a && WordOf(b[5..9]) == d
            case WriteMem(a, d) => |b| == 9 && WordOf(b[1..5]) == a && WordOf(b[5..9]) == d
            case WaitMem(a, m) => |b| == 9 && WordOf(b[1..5]) == a && WordOf(b[5..9]) == m
            case WriteDP(_, d) => |b| == 6 && WordOf(b[2..6]) == d
            case _ => true
  {
    var b := BytesOf(c);
    match c
    case ReadAP(a) => WordRoundTrip(a); assert b[1..5] == WordBytes(a);
    case ReadMem(a) => WordRoundTrip(a); assert b[1..5] == WordBytes(a);
    case WriteAP(a, d) => WordRoundTrip(a); WordRoundTrip(d); assert b[1..5] == WordBytes(a) && b[5..9] == WordBytes(d);
    case WriteMem(a, d) => WordRoundTrip(a); WordRoundTrip(d);
      assert b[1..5] == WordBytes(a) && b[5..9] == WordBytes(d);
    case WaitMem(a, m) => WordRoundTrip(a); WordRoundTrip(m); assert b[1..5] == WordBytes(a) && b[5..9] == WordBytes(m);
    case WriteDP(_, d) => WordRoundTrip(d); assert b[2..6] == WordBytes(d);
    case _ =>
  }

  function BytesOfAll(cs: seq<Command>): seq<byte> {
    if cs == [] then [] else BytesOf(cs[0]) + BytesOfAll(cs[1..])
  }

  // ---------- what the commands do ----------

  datatype Waited = Seen(target: Target) | Broken(stat: byte, target: Target) | TimedOut(target: Target)

  /** Reads a memory word until all bits of the mask are set, at most so many times. */
  function WaitFor(probe: Probe, t: Target, address: word, mask: word, tries: nat): Waited {
    if tries == 0 then TimedOut(t)
    else
      var o := probe.readMemory(t, address);
      if o.stat != STATUS_OK then Broken(o.stat, o.target)
      else if AllSet(o.data, mask) then Seen(o.target)
      else WaitFor(probe, o.target, address, mask, tries - 1)
  }

  /**
   * One command: the target afterwards, what it adds to the reply, and the status it ends the packet with, if it
   * does. A wait that runs out of tries answers at once, but neither ends the packet nor goes on to the next command.
   */
  datatype Effect =
    | Done(added: seq<byte>, target: Target)
    | Stopped(stat: byte, added: seq<byte>, target: Target)
    | Again(target: Target)

  /** What a command adds to the reply. */
  function Added(e: Effect): seq<byte> {
    if e.Again? then [] else e.added
  }

  function Reading(o: Outcome): Effect {
    if o.stat == STATUS_OK then Done(WordBytes(o.data), o.target) else Stopped(o.stat, [], o.target)
  }

  function Writing(o: Outcome): Effect {
    if o.stat == STATUS_OK then Done([], o.target) else Stopped(o.stat, [], o.target)
  }

  function Perform(probe: Probe, t: Target, c: Command): Effect {
    match c
    case Connect => Reading(probe.connect(t))
    case Reset(state) => Done([], probe.setReset(t, state > 0))
    case ReadAP(a) => Reading(probe.readAP(t, a))
    case WriteAP(a, d) => Writing(probe.writeAP(t, a, d))
    case ReadDP(r) => Reading(probe.readDP(t, r))
    case WriteDP(r, d) => Writing(probe.writeDP(t, r, d))
    case ReadMem(a) => Reading(probe.readMemory(t, a))
    case WriteMem(a, d) => Writing(probe.writeMemory(t, a, d))
    case WaitMem(a, m) =>
      (match WaitFor(probe, t, a, m, MAX_RETRIES)
       case Seen(t') => Done([], t')
       case Broken(stat, t') => Stopped(stat, [], t')
       case TimedOut(t') => Again(t'))
    case GetProgId => Done([0x01, BUFFER_SIZE, 0], t)
    case Unknown(_) => Stopped(STATUS_UNKNOWNCMD, WordBytes(0xDEADBEEF), t)
  }

  datatype Reply = Reply(status: byte, results: seq<byte>, target: Target)

  /** Runs the commands in order up to the first that does not succeed. */
  function RunAll(probe: Probe, t: Target, cs: seq<Command>, results: seq<byte>): Reply
    decreases |cs|
  {
    if cs == [] then Reply(STATUS_OK, results, t)
    else
      match Perform(probe, t, cs[0])
      case Done(added, t') => RunAll(probe, t', cs[1..], results + added)
      case Stopped(stat, added, t') => Reply(stat, results + added, t')
      case Again(t') => Reply(STATUS_TIMEOUT, results, t')
  }

  /** No wait that the packet gets to runs out of tries. */
  predicate NoTimeOut(probe: Probe, t: Target, cs: seq<Command>)
    decreases |cs|
  {
    cs == [] || (
      var e := Perform(probe, t, cs[0]);
      !e.Again? && (e.Done? ==> NoTimeOut(probe, e.target, cs[1..])))
  }

  /** Results of read commands come first in the reply of a run that starts with some results. */
  lemma {:induction false} ResultsArePrefixed(probe: Probe, t: Target, cs: seq<Command>, results: seq<byte>)
    ensures var r, r0 := RunAll(probe, t, cs, results), RunAll(probe, t, cs, []);
            r.status == r0.status && r.target == r0.target && r.results == results + r0.results
    decreases |cs|
  {
    if cs != [] && Perform(probe, t, cs[0]).Done? {
      var e := Perform(probe, t, cs[0]);
      ResultsArePrefixed(probe, e.target, cs[1..], results + e.added);
      ResultsArePrefixed(probe, e.target, cs[1..], [] + e.added);
      assert results + e.added + RunAll(probe, e.target, cs[1..], []).results == results +
             ([] + e.added + RunAll(probe, e.target, cs[1..], []).results);
    }
  }

  // ---------- what the firmware answers ----------

  datatype Answer = Answer(status: byte, results: seq<byte>)

  /** The answers to a packet, whether all of it was dealt with, and the target then. */
  datatype Service = Service(answers: seq<Answer>, target: Target, finished: bool)

  /**
   * What the firmware does in so many commands. After a time-out it has answered, forgotten its results, and starts
   * with the same wait.
   */
  function Serve(probe: Probe, t: Target, cs: seq<Command>, results: seq<byte>, steps: nat): Service
    decreases steps
  {
    if steps == 0 then Service([], t, false)
    else if cs == [] then Service([Answer(STATUS_OK, results)], t, true)
    else
      match Perform(probe, t, cs[0])
      case Done(added, t') => Serve(probe, t', cs[1..], results + added, steps - 1)
      case Stopped(stat, added, t') => Service([Answer(stat, results + added)], t', true)
      case Again(t') =>
        var s := Serve(probe, t', cs, [], steps - 1);
        s.(answers := [Answer(STATUS_TIMEOUT, results)] + s.answers)
  }

  function Packets(answers: seq<Answer>): seq<byte> {
    if answers == [] then [] else Packet([answers[0].status] + answers[0].results) + Packets(answers[1..])
  }

  /**
   * What command c adds to a reply of that length fits the buffer: a word must leave a byte free, the identification
   * need not.
   */
  predicate HasRoom(c: Command, length: nat, added: nat) {
    if c.GetProgId? then length + added <= BUFFER_SIZE - 1 else added == 0 || length + added < BUFFER_SIZE - 1
  }

  /** All that is served fits the buffer that answers are collected in. */
  predicate RepliesFit(probe: Probe, t: Target, cs: seq<Command>, results: seq<byte>, steps: nat)
    decreases steps
  {
    steps == 0 || cs == [] || (
      var e := Perform(probe, t, cs[0]);
      && HasRoom(cs[0], |results|, |Added(e)|)
      && (match e
          case Done(added, t') => RepliesFit(probe, t', cs[1..], results + added, steps - 1)
          case Stopped(_, _, _) => true
          case Again(t') => RepliesFit(probe, t', cs, [], steps - 1)))
  }

  /** The results collected so far are in the first answer. */
  lemma {:induction false} ResultsGrow(probe: Probe, t: Target, cs: seq<Command>, results: seq<byte>, steps: nat)
    requires Serve(probe, t, cs, results, steps).finished
    ensures var a := Serve(probe, t, cs, results, steps).answers;
            && a != [] && |results| <= |a[0].results|
            && (cs != [] ==> |results| + |Added(Perform(probe, t, cs[0]))| <= |a[0].results|)
    decreases steps
  {
    if cs != [] && Perform(probe, t, cs[0]).Done? {
      var e := Perform(probe, t, cs[0]);
      ResultsGrow(probe, e.target, cs[1..], results + e.added, steps - 1);
    }
  }

  /** In particular, answers that are shorter than the buffer by two bytes fit. */
  lemma {:induction false} ShortAnswersFit(probe: Probe, t: Target, cs: seq<Command>, results: seq<byte>, steps: nat)
    requires var s := Serve(probe, t, cs, results, steps); s.finished && forall a :: a in s.answers ==>
             |a.results| < BUFFER_SIZE - 1
    ensures RepliesFit(probe, t, cs, results, steps)
    decreases steps
  {
    ResultsGrow(probe, t, cs, results, steps);
    var answers := Serve(probe, t, cs, results, steps).answers;
    assert answers[0] in answers;
    if cs != [] {
      match Perform(probe, t, cs[0])
      case Done(added, t') => ShortAnswersFit(probe, t', cs[1..], results + added, steps - 1);
      case Stopped(_, _, _) =>
      case Again(t') => ShortAnswersFit(probe, t', cs, [], steps - 1);
    }
  }

  /**
   * The packet is answered with one answer if and only if no wait runs out of tries, and that answer is what running
   * the commands in order up to the first failure gives.
   */
  lemma {:induction false} OneAnswerIff(probe: Probe, t: Target, cs: seq<Command>, results: seq<byte>, steps: nat)
    requires Serve(probe, t, cs, results, steps).finished
    ensures var s, r := Serve(probe, t, cs, results, steps), RunAll(probe, t, cs, results);
            && (|s.answers| == 1 <==> NoTimeOut(probe, t, cs))
            && (NoTimeOut(probe, t, cs) ==> s.answers == [Answer(r.status, r.results)] && s.target == r.target)
    decreases steps
  {
    if cs != [] {
      match Perform(probe, t, cs[0])
      case Done(added, t') => OneAnswerIff(probe, t', cs[1..], results + added, steps - 1);
      case Stopped(_, _, _) =>
      case Again(t') => ResultsGrow(probe, t', cs, [], steps - 1);
    }
  }

  /** Without a time-out a packet is dealt with in as many steps as it has commands, and one. */
  lemma {:induction false} NoTimeOutFinishes(probe: Probe, t: Target, cs: seq<Command>, results: seq<byte>)
    requires NoTimeOut(probe, t, cs)
    ensures Serve(probe, t, cs, results, |cs| + 1).finished
    decreases |cs|
  {
    if cs != [] && Perform(probe, t, cs[0]).Done? {
      var e := Perform(probe, t, cs[0]);
      NoTimeOutFinishes(probe, e.target, cs[1..], results + e.added);
    }
  }

  /**
   * From any of these targets the memory can be read without its having all bits of the mask set, and the target is
   * one of them again. What other targets do is open.
   */
  ghost predicate NeverSet(probe: Probe, address: word, mask: word, targets: iset<Target>) {
    forall t :: t in targets ==>
      var o := probe.readMemory(t, address);
      o.stat == STATUS_OK && !AllSet(o.data, mask) && o.target in targets
  }

  lemma {:induction false} WaitsInVain(probe: Probe, t: Target, address: word, mask: word, targets: iset<Target>,
                                       tries: nat)
    requires NeverSet(probe, address, mask, targets) && t in targets
    ensures var w := WaitFor(probe, t, address, mask, tries); w.TimedOut? && w.target in targets
    decreases tries
  {
    if tries > 0 { WaitsInVain(probe, probe.readMemory(t, address).target, address, mask, targets, tries - 1); }
  }

  /** A wait for bits that never come is answered without end: the packet is never dealt with. */
  lemma {:induction false} HopelessWaitNeverEnds(probe: Probe, t: Target, cs: seq<Command>, results: seq<byte>,
                                                 targets: iset<Target>, steps: nat)
    requires cs != [] && cs[0].WaitMem? && NeverSet(probe, cs[0].address, cs[0].mask, targets) && t in targets
    ensures var s := Serve(probe, t, cs, results, steps);
            && !s.finished && |s.answers| == steps && forall a :: a in s.answers ==> a.status == STATUS_TIMEOUT
    decreases steps
  {
    if steps > 0 {
      WaitsInVain(probe, t, cs[0].address, cs[0].mask, targets, MAX_RETRIES);
      HopelessWaitNeverEnds(probe, Perform(probe, t, cs[0]).target, cs, [], targets, steps - 1);
    }
  }

  /** So is a wait for a word that stays as it is and lacks a bit, whatever else the target does. */
  lemma {:induction false} UnchangedWordNeverEnds(probe: Probe, t: Target, cs: seq<Command>, results: seq<byte>,
                                                  data: word, k: nat, steps: nat)
    requires cs != [] && cs[0].WaitMem? && probe.readMemory(t, cs[0].address) == Outcome(STATUS_OK, data, t)
    requires Bit(cs[0].mask, k) && !Bit(data, k)
    ensures var s := Serve(probe, t, cs, results, steps);
            && !s.finished && |s.answers| == steps && forall a :: a in s.answers ==> a.status == STATUS_TIMEOUT
  {
    AllSetIff(data, cs[0].mask);
    HopelessWaitNeverEnds(probe, t, cs, results, iset{t}, steps);
  }
}

/** The programmer's firmware. */
module Firmware {
  import opened Bytes
  import opened Cobs
  import opened Protocol

  class Programmer {
    const probe: Probe
    const rxbuffer: array<byte>
    const txbuffer: array<byte>
    var rxidx: nat
    var txidx: nat
    var target: Target
    var serial: seq<byte>

    ghost predicate Valid()
      reads this, rxbuffer, txbuffer
    {
      && rxbuffer.Length == txbuffer.Length == BUFFER_SIZE && rxbuffer != txbuffer
      && rxidx <= BUFFER_SIZE && 1 <= txidx <= BUFFER_SIZE
    }

    constructor (probe: Probe, target: Target)
      ensures Valid() && this.probe == probe && this.target == target && Received() == [] && Queued() == [] &&
              serial == []
      ensures fresh(rxbuffer) && fresh(txbuffer)
    {
      this.probe, this.target := probe, target;
      rxbuffer, txbuffer := new byte[BUFFER_SIZE](_ => 0), new byte[BUFFER_SIZE](_ => 0);
      rxidx, txidx, serial := 0, 1, [];
    }

    ghost function Received(): seq<byte>
      requires Valid()
      reads this, rxbuffer, txbuffer
    {
      rxbuffer[..rxidx]
    }

    ghost function Queued(): seq<byte>
      requires Valid()
      reads this, rxbuffer, txbuffer
    {
      txbuffer[1..txidx]
    }

    method QueueReplyUInt8(b: byte) returns (ok: bool)
      requires Valid()
      modifies `txidx, txbuffer
      ensures Valid() && (ok <==> old(txidx) < BUFFER_SIZE)
      ensures Queued() == if ok then old(Queued()) + [b] else old(Queued())
    {
      if txidx >= BUFFER_SIZE { return false; }
      txbuffer[txidx] := b;
      txidx := txidx + 1;
      ok := true;
    }

    method QueueReplyUInt32(w: word) returns (ok: bool)
      requires Valid()
      modifies `txidx, txbuffer
      ensures Valid() && (ok <==> old(txidx) + 4 < BUFFER_SIZE)
      ensures Queued() == if ok then old(Queued()) + WordBytes(w) else old(Queued())
    {
      if txidx + 4 >= BUFFER_SIZE { return false; }
      txbuffer[txidx] := w % 256;
      txbuffer[txidx + 1] := w / 256 % 256;
      txbuffer[txidx + 2] := w / 0x1_0000 % 256;
      txbuffer[txidx + 3] := w / 0x100_0000;
      txidx := txidx + 4;
      ok := true;
    }

    /** Sends the status and what was queued as one packet. */
    method SendReply(replyStatus: byte)
      requires Valid()
      modifies `txidx, `serial, txbuffer
      ensures Valid() && Queued() == [] && serial == old(serial) + Packet([replyStatus] + old(Queued()))
    {
      var encodebuffer := new byte[BUFFER_SIZE + 2];
      txbuffer[0] := replyStatus;
      ghost var message := txbuffer[..txidx];
      assert message == [replyStatus] + old(Queued());
      PacketOf(message);
      ghost var written := StuffData(txbuffer, txidx, encodebuffer);
      var n := 0;
      while encodebuffer[n] != 0
        invariant 0 <= n < written && encodebuffer[..written] == Packet(message)
        decreases written - n
      {
        n := n + 1;
      }
      TerminatorIs(Packet(message), n);
      serial := serial + encodebuffer[..n + 1];
      txidx := 1;
    }

    /** A word at any place of a buffer. */
    static method GetUInt32(buf: array<byte>, ptr: nat) returns (w: word)
      requires ptr + 4 <= buf.Length
      ensures w == WordOf(buf[ptr..ptr + 4])
    {
      var b0: int, b1: int, b2: int, b3: int := buf[ptr], buf[ptr + 1], buf[ptr + 2], buf[ptr + 3];
      w := b0 + 256 * b1 + 0x1_0000 * b2 + 0x100_0000 * b3;
    }

    /** Queues the word a read gave, or reports that it failed. */
    method ReplyWith(o: Outcome) returns (ok: bool, stat: byte)
      requires Valid() && (o.stat == STATUS_OK ==> |Queued()| + 4 < BUFFER_SIZE - 1)
      modifies `txidx, `target, txbuffer
      ensures Valid() && stat == o.stat && target == o.target && (ok <==> stat == STATUS_OK)
      ensures Queued() == if ok then old(Queued()) + WordBytes(o.data) else old(Queued())
    {
      target, stat := o.target, o.stat;
      ok := stat == STATUS_OK;
      if ok { var _ := QueueReplyUInt32(o.data); }
    }

    /** Reads a memory word until all bits of the mask are set. done is false after a read failed, and stat says why. */
    method PollMemory(address: word, mask: word) returns (done: bool, stat: byte, retries: nat)
      requires Valid()
      modifies `target
      ensures match WaitFor(probe, old(target), address, mask, MAX_RETRIES)
              case Seen(t) => done && retries < MAX_RETRIES && target == t
              case Broken(s, t) => !done && stat == s && target == t
              case TimedOut(t) => done && retries == MAX_RETRIES && target == t
    {
      retries, stat := 0, STATUS_OK;
      while retries < MAX_RETRIES
        invariant 0 <= retries <= MAX_RETRIES
        invariant WaitFor(probe, target, address, mask, MAX_RETRIES - retries) ==
                  WaitFor(probe, old(target), address, mask, MAX_RETRIES)
      {
        var o := probe.readMemory(target, address);
        target := o.target;
        if o.stat == STATUS_OK {
          if AllSet(o.data, mask) { return true, STATUS_OK, retries; }
        } else {
          return false, o.stat, retries;
        }
        retries := retries + 1;
      }
      done := true;
    }

    /** A command is next in the buffer, and what it adds to the reply fits. */
    ghost predicate Next(buf: array<byte>, ptr: nat, c: Command)
      reads this, rxbuffer, txbuffer, buf
    {
      && Valid() && buf != txbuffer && ptr + |BytesOf(c)| <= buf.Length && buf[ptr..ptr + |BytesOf(c)|] == BytesOf(c)
      && IsCommand(c) && HasRoom(c, |Queued()|, |Added(Perform(probe, target, c))|)
    }

    ghost predicate Executed(e: Effect, length: nat, queued: seq<byte>, sent: seq<byte>, ok: bool, stat: byte, len: nat)
      reads this, rxbuffer, txbuffer
    {
      Valid() &&
      match e
      case Done(added, t) => ok && len == length && target == t && Queued() == queued + added && serial == sent
      case Stopped(s, added, t) => !ok && stat == s && target == t && Queued() == queued + added && serial == sent
      case Again(t) =>
        ok && len == 0 && target == t && Queued() == [] && serial == sent + Packet([STATUS_TIMEOUT] + queued)
    }

    /**
     * Executes the command c at ptr. ok tells whether to go on; len is then how far to the next command, else stat is
     * the status of the reply. A wait that ran out of tries has been answered.
     */
    method Execute(buf: array<byte>, ptr: nat, ghost c: Command) returns (ok: bool, stat: byte, len: nat)
      requires Next(buf, ptr, c)
      modifies `txidx, `target, `serial, txbuffer
      ensures Executed(old(Perform(probe, target, c)), |BytesOf(c)|, old(Queued()), old(serial), ok, stat, len)
    {
      assert buf[ptr] == buf[ptr..ptr + |BytesOf(c)|][0];
      var code := buf[ptr];
      if code == TXCMD_READDP || code == TXCMD_READAP || code == TXCMD_READMEM || code == TXCMD_CONNECT {
        ok, stat, len := ExecuteRead(buf, ptr, c);
      } else if code == TXCMD_WRITEDP || code == TXCMD_WRITEAP || code == TXCMD_WRITEMEM {
        ok, stat, len := ExecuteWrite(buf, ptr, c);
      } else if code == TXCMD_RESET {
        assert buf[ptr + 1] == buf[ptr..ptr + |BytesOf(c)|][1];
        target := probe.setReset(target, buf[ptr + 1] > 0);
        ok, stat, len := true, STATUS_OK, 2;
      } else if code == TXCMD_WAITMEMTRUE {
        ok, stat, len := WaitMemTrue(buf, ptr, c);
      } else if code == TXCMD_GETPROGID {
        ok, stat, len := Identify(buf, ptr, c);
      } else {
        var _ := QueueReplyUInt32(0xDEADBEEF);
        ok, stat, len := false, STATUS_UNKNOWNCMD, 1;
      }
    }

    method Identify(buf: array<byte>, ptr: nat, ghost c: Command) returns (ok: bool, stat: byte, len: nat)
      requires Next(buf, ptr, c) && c.GetProgId?
      modifies `txidx, txbuffer
      ensures Executed(old(Perform(probe, target, c)), |BytesOf(c)|, old(Queued()), old(serial), ok, stat, len)
    {
      var _ := QueueReplyUInt8(0x01);
      var _ := QueueReplyUInt8(BUFFER_SIZE);
      var _ := QueueReplyUInt8(0);
      ok, stat, len := true, STATUS_OK, 1;
    }

    method WaitMemTrue(buf: array<byte>, ptr: nat, ghost c: Command) returns (ok: bool, stat: byte, len: nat)
      requires Next(buf, ptr, c) && c.WaitMem?
      modifies `txidx, `target, `serial, txbuffer
      ensures Executed(old(Perform(probe, target, c)), |BytesOf(c)|, old(Queued()), old(serial), ok, stat, len)
    {
      Operands(buf, ptr, BytesOf(c));
      WordsOf(c);
      var address := GetUInt32(buf, ptr + 1);
      var mask := GetUInt32(buf, ptr + 5);
      var retries;
      ok, stat, retries := PollMemory(address, mask);
      len := 9;
      if ok && retries == MAX_RETRIES {
        SendReply(STATUS_TIMEOUT);
        len := 0;
      }
    }

    method ExecuteRead(buf: array<byte>, ptr: nat, ghost c: Command) returns (ok: bool, stat: byte, len: nat)
      requires Next(buf, ptr, c) && (c.ReadDP? || c.ReadAP? || c.ReadMem? || c.Connect?)
      modifies `txidx, `target, txbuffer
      ensures Executed(old(Perform(probe, target, c)), |BytesOf(c)|, old(Queued()), old(serial), ok, stat, len)
    {
      ghost var b := BytesOf(c);
      assert buf[ptr] == buf[ptr..ptr + |b|][0];
      if !c.Connect? && !c.ReadDP? { Operands(buf, ptr, b); }
      WordsOf(c);
      var o;
      if buf[ptr] == TXCMD_CONNECT {
        o, len := probe.connect(target), 1;
      } else if buf[ptr] == TXCMD_READDP {
        assert buf[ptr + 1] == buf[ptr..ptr + |b|][1];
        o, len := probe.readDP(target, buf[ptr + 1]), 2;
      } else {
        var address := GetUInt32(buf, ptr + 1);
        o := if buf[ptr] == TXCMD_READAP then probe.readAP(target, address) else probe.readMemory(target, address);
        len := 5;
      }
      assert Perform(probe, target, c) == Reading(o);
      ok, stat := ReplyWith(o);
    }

    method ExecuteWrite(buf: array<byte>, ptr: nat, ghost c: Command) returns (ok: bool, stat: byte, len: nat)
      requires Next(buf, ptr, c) && (c.WriteDP? || c.WriteAP? || c.WriteMem?)
      modifies `target
      ensures Executed(old(Perform(probe, target, c)), |BytesOf(c)|, old(Queued()), old(serial), ok, stat, len)
    {
      ghost var b := BytesOf(c);
      assert buf[ptr] == buf[ptr..ptr + |b|][0];
      Operands(buf, ptr, b);
      WordsOf(c);
      var o;
      if buf[ptr] == TXCMD_WRITEDP {
        assert buf[ptr + 1] == buf[ptr..ptr + |b|][1];
        var data := GetUInt32(buf, ptr + 2);
        o, len := probe.writeDP(target, buf[ptr + 1], data), 6;
      } else {
        var address := GetUInt32(buf, ptr + 1);
        var data := GetUInt32(buf, ptr + 5);
        o := if buf[ptr] == TXCMD_WRITEAP then probe.writeAP(target, address, data)
          else probe.writeMemory(target, address, data);
        len := 9;
      }
      assert Perform(probe, target, c) == Writing(o);
      ok, stat, target := o.stat == STATUS_OK, o.stat, o.target;
    }

    /** One byte of a packet. The buffer full, all that was received and queued is dropped and the host is told. */
    method ReceiveByte(b: byte) returns (ok: bool)
      requires Valid() && b != 0
      modifies `rxidx, `txidx, `serial, rxbuffer, txbuffer
      ensures Valid() && (ok <==> old(rxidx) < BUFFER_SIZE)
      ensures ok ==> Received() == old(Received()) + [b] && Queued() == old(Queued()) && serial == old(serial)
      ensures !ok ==> Received() == [] && Queued() == [] && serial == old(serial) + Packet([STATUS_RXOVERFLOW])
    {
      if rxidx >= BUFFER_SIZE {
        txidx := 1;
        rxidx := 0;
        SendReply(STATUS_RXOVERFLOW);
        assert [STATUS_RXOVERFLOW] + [] == [STATUS_RXOVERFLOW];
        return false;
      }
      rxbuffer[rxidx] := b;
      rxidx := rxidx + 1;
      ok := true;
    }

    /** Executes the commands in the first n bytes of a buffer and replies. */
    method Dispatch(buf: array<byte>, n: nat, ghost cs: seq<Command>, ghost steps: nat)
      requires Valid() && Queued() == [] && buf != txbuffer && n <= buf.Length && buf[..n] == BytesOfAll(cs) &&
               forall c :: c in cs ==> IsCommand(c)
      requires Serve(probe, target, cs, [], steps).finished && RepliesFit(probe, target, cs, [], steps)
      modifies `txidx, `target, `serial, txbuffer
      ensures Valid() && Queued() == []
      ensures var s := Serve(probe, old(target), cs, [], steps);
              target == s.target && serial == old(serial) + Packets(s.answers)
    {
      hide BytesOf, Perform;
      ghost var s := Serve(probe, target, cs, [], steps);
      var ptr := 0;
      ghost var todo, left, rest := cs, steps, s.answers;
      assert buf[0..n] == buf[..n];
      while ptr < n
        invariant Valid() && 0 <= ptr <= n && buf[ptr..n] == BytesOfAll(todo) && forall c :: c in todo ==> IsCommand(c)
        invariant Serve(probe, target, todo, Queued(), left) == Service(rest, s.target, true) &&
                  RepliesFit(probe, target, todo, Queued(), left)
        invariant serial + Packets(rest) == old(serial) + Packets(s.answers)
        decreases left
      {
        ghost var c := todo[0];
        ghost var sent, queued := serial, Queued();
        ResultsGrow(probe, target, todo, Queued(), left);
        CommandIsNext(buf, ptr, n, todo);
        ghost var e := Perform(probe, target, c);
        var ok, stat, len := Execute(buf, ptr, c);
        if !ok {
          SendReply(stat);
          OnePacket(sent, rest);
          return;
        }
        ptr := ptr + len;
        left := left - 1;
        if e.Done? {
          todo := todo[1..];
        } else {
          AnswerSent(sent, rest, Answer(STATUS_TIMEOUT, queued));
          rest := rest[1..];
        }
      }
      assert todo == [];
      OnePacket(serial, rest);
      SendReply(STATUS_OK);
    }

    /** The zero byte that ends a packet: the packet is decoded and its commands are executed. */
    method PacketComplete(ghost cs: seq<Command>, ghost steps: nat)
      requires Valid() && Queued() == [] && Unstuffed(Received()) == BytesOfAll(cs) + [0] && forall c :: c in cs ==>
               IsCommand(c)
      requires Serve(probe, target, cs, [], steps).finished && RepliesFit(probe, target, cs, [], steps)
      modifies `rxidx, `txidx, `target, `serial, txbuffer
      ensures Valid() && Queued() == [] && Received() == []
      ensures var s := Serve(probe, old(target), cs, [], steps);
              target == s.target && serial == old(serial) + Packets(s.answers)
    {
      var decodebuffer := new byte[BUFFER_SIZE];
      var bytes := UnStuffData(rxbuffer, rxidx, decodebuffer);
      bytes := bytes - 1;
      assert decodebuffer[..bytes] == decodebuffer[..bytes + 1][..bytes] == BytesOfAll(cs);
      rxidx := 0;
      Dispatch(decodebuffer, bytes, cs, steps);
    }

    /** Everything the serial line has, up to the end of the packet of the given commands. */
    method Loop(input: seq<byte>, ghost cs: seq<Command>, ghost steps: nat)
      requires Valid() && Queued() == [] && Received() == [] && input == Packet(BytesOfAll(cs)) &&
               |input| <= BUFFER_SIZE + 1
      requires forall c :: c in cs ==> IsCommand(c)
      requires Serve(probe, target, cs, [], steps).finished && RepliesFit(probe, target, cs, [], steps)
      modifies this, rxbuffer, txbuffer
      ensures Valid() && Queued() == [] && Received() == []
      ensures var s := Serve(probe, old(target), cs, [], steps);
              target == s.target && serial == old(serial) + Packets(s.answers)
    {
      hide Serve, RepliesFit, Packets;
      PacketOf(BytesOfAll(cs));
      ghost var s := Serve(probe, target, cs, [], steps);
      var i := 0;
      while i < |input|
        invariant 0 <= i <= |input| && Valid() && Queued() == []
        invariant i < |input| ==> Received() == input[..i] && target == old(target) && serial == old(serial)
        invariant i == |input| ==> Received() == [] && target == s.target && serial == old(serial) + Packets(s.answers)
      {
        var byteRead := input[i];
        if byteRead != 0 {
          var ok := ReceiveByte(byteRead);
          if !ok { return; }
        } else {
          TerminatorIs(input, i);
          assert input[..|input| - 1] == input[..i];
          PacketComplete(cs, steps);
        }
        i := i + 1;
      }
    }
  }

  lemma OnePacket(sent: seq<byte>, answers: seq<Answer>)
    requires |answers| == 1
    ensures sent + Packets(answers) == sent + Packet([answers[0].status] + answers[0].results)
  {
    assert Packets(answers[1..]) == [];
  }

  lemma AnswerSent(sent: seq<byte>, answers: seq<Answer>, a: Answer)
    requires answers != [] && answers[0] == a
    ensures sent + Packet([a.status] + a.results) + Packets(answers[1..]) == sent + Packets(answers)
  {
  }

  lemma {:induction false} CommandIsNext(buf: array<byte>, ptr: nat, n: nat, todo: seq<Command>)
    requires ptr < n <= buf.Length && buf[ptr..n] == BytesOfAll(todo)
    ensures todo != [] && ptr + |BytesOf(todo[0])| <= n && buf[ptr..ptr + |BytesOf(todo[0])|] == BytesOf(todo[0])
    ensures buf[ptr + |BytesOf(todo[0])|..n] == BytesOfAll(todo[1..])
  {
    var b := BytesOf(todo[0]);
    assert buf[ptr..n] == b + BytesOfAll(todo[1..]);
    assert buf[ptr..n][..|b|] == buf[ptr..ptr + |b|] && buf[ptr..n][|b|..] == buf[ptr + |b|..n];
  }

  /** The words of a command, where the firmware looks for them. */
  lemma Operands(buf: array<byte>, ptr: nat, b: seq<byte>)
    requires ptr + |b| <= buf.Length && buf[ptr..ptr + |b|] == b && |b| >= 5
    ensures buf[ptr + 1..ptr + 5] == b[1..5]
    ensures |b| >= 6 ==> buf[ptr + 2..ptr + 6] == b[2..6]
    ensures |b| >= 9 ==> buf[ptr + 5..ptr + 9] == b[5..9]
  {
    assert forall k :: 0 <= k < |b| ==> buf[ptr + k] == b[k];
  }

  /** The first zero of a packet is its last byte. */
  lemma TerminatorIs(packet: seq<byte>, n: nat)
    requires |packet| > 0 && NoZero(packet[..|packet| - 1]) && n < |packet| && packet[n] == 0
    ensures n + 1 == |packet|
  {
    assert forall k :: 0 <= k < |packet| - 1 ==> packet[k] == packet[..|packet| - 1][k];
  }
}

/** The host's command and result queues, and a whole exchange with the programmer. */
module HostSession {
  import opened Bytes
  import opened Cobs
  import opened Protocol
  import opened Firmware

  class Queues {
    var cmdQueue: seq<byte>
    var resultQueue: seq<byte>

    constructor ()
      ensures cmdQueue == [] && resultQueue == []
    {
      cmdQueue, resultQueue := [], [];
    }

    method QueueUInt8(b: byte)
      modifies `cmdQueue
      ensures cmdQueue == old(cmdQueue) + [b]
    {
      cmdQueue := cmdQueue + [b];
    }

    method QueueUInt32(w: word)
      modifies `cmdQueue
      ensures cmdQueue == old(cmdQueue) + WordBytes(w)
    {
      cmdQueue := cmdQueue + [w % 256];
      cmdQueue := cmdQueue + [w / 256 % 256];
      cmdQueue := cmdQueue + [w / 0x1_0000 % 256];
      cmdQueue := cmdQueue + [w / 0x100_0000];
    }

    method QueueWords(a: word, b: word)
      modifies `cmdQueue
      ensures cmdQueue == old(cmdQueue) + (WordBytes(a) + WordBytes(b))
    {
      QueueUInt32(a);
      QueueUInt32(b);
    }

    /** What the script functions put into the queue for a command. */
    method QueueCommand(c: Command)
      modifies `cmdQueue
      ensures cmdQueue == old(cmdQueue) + BytesOf(c)
    {
      match c {
        case Connect => QueueUInt8(TXCMD_CONNECT);
        case Reset(state) => QueueUInt8(TXCMD_RESET); QueueUInt8(state);
        case ReadAP(a) => QueueUInt8(TXCMD_READAP); QueueUInt32(a);
        case WriteAP(a, d) => QueueUInt8(TXCMD_WRITEAP); QueueWords(a, d);
        case ReadDP(r) => QueueUInt8(TXCMD_READDP); QueueUInt8(r);
        case WriteDP(r, d) => QueueUInt8(TXCMD_WRITEDP); QueueUInt8(r); QueueUInt32(d);
        case ReadMem(a) => QueueUInt8(TXCMD_READMEM); QueueUInt32(a);
        case WriteMem(a, d) => QueueUInt8(TXCMD_WRITEMEM); QueueWords(a, d);
        case WaitMem(a, m) => QueueUInt8(TXCMD_WAITMEMTRUE); QueueWords(a, m);
        case GetProgId => QueueUInt8(TXCMD_GETPROGID);
        case Unknown(code) => QueueUInt8(code);
      }
    }

    /** A fresh queue with all the commands. */
    method QueueAll(cs: seq<Command>)
      modifies `cmdQueue
      ensures cmdQueue == BytesOfAll(cs)
    {
      hide BytesOf;
      cmdQueue := [];
      var i := 0;
      assert cs[0..] == cs;
      while i < |cs|
        invariant 0 <= i <= |cs| && cmdQueue + BytesOfAll(cs[i..]) == BytesOfAll(cs)
      {
        assert cs[i..][1..] == cs[i + 1..];
        assert cmdQueue + (BytesOf(cs[i]) + BytesOfAll(cs[i + 1..])) == cmdQueue + BytesOf(cs[i]) +
               BytesOfAll(cs[i + 1..]);
        QueueCommand(cs[i]);
        i := i + 1;
      }
    }

    /** Reads a reply packet into the result queue and pops the status. */
    method ReadReply(line: HardwareInterface, ghost stat: byte, ghost results: seq<byte>) returns (status: byte)
      requires line.incoming == Packet([stat] + results)
      modifies `resultQueue, line`incoming
      ensures status == stat && resultQueue == results && line.incoming == []
    {
      hide Stuffed, Unstuffed;
      ReadPacketOf([stat] + results, []);
      assert line.incoming == Packet([stat] + results) + [];
      DecodedNotEmpty([stat] + results);
      var ok;
      ok, resultQueue := line.ReadPacket();
      assert resultQueue == [stat] + results;
      status := PopUInt8();
      assert ([stat] + results)[1..] == results && ([status] + resultQueue)[1..] == resultQueue;
    }

    method PopUInt8() returns (b: byte)
      modifies `resultQueue
      ensures old(resultQueue) == [] ==> b == 0 && resultQueue == []
      ensures old(resultQueue) != [] ==> old(resultQueue) == [b] + resultQueue
    {
      if |resultQueue| > 0 {
        b := resultQueue[0];
        resultQueue := resultQueue[1..];
      } else {
        b := 0;
      }
    }

    /** The word in front of the result queue, 0 if there is no whole word. */
    method PopUInt32() returns (w: word)
      modifies `resultQueue
      ensures |old(resultQueue)| < 4 ==> w == 0 && resultQueue == old(resultQueue)
      ensures |old(resultQueue)| >= 4 ==> w == WordOf(old(resultQueue)[..4]) && resultQueue == old(resultQueue)[4..]
    {
      if |resultQueue| > 3 {
        var b0: int := resultQueue[0];
        resultQueue := resultQueue[1..];
        var b1: int := resultQueue[0];
        resultQueue := resultQueue[1..];
        var b2: int := resultQueue[0];
        resultQueue := resultQueue[1..];
        var b3: int := resultQueue[0];
        resultQueue := resultQueue[1..];
        w := b0 + 256 * b1 + 0x1_0000 * b2 + 0x100_0000 * b3;
      } else {
        w := 0;
      }
    }

    /** A word the programmer queued is popped as it was, and what followed it stays. */
    method PopQueuedWord(ghost w: word, ghost rest: seq<byte>) returns (popped: word)
      requires resultQueue == WordBytes(w) + rest
      modifies `resultQueue
      ensures popped == w && resultQueue == rest
    {
      WordRoundTrip(w);
      assert resultQueue[..4] == WordBytes(w) && resultQueue[4..] == rest;
      popped := PopUInt32();
    }
  }

  lemma {:induction false} DecodedNotEmpty(p: seq<byte>)
    ensures Unstuffed(Stuffed([], p)) != []
  {
    UnstuffStuffed([], p);
  }

  /**
   * The host queues commands and sends them, the programmer answers, the host reads the answer. The programmer has
   * then run the commands in order up to the first failure, and the host has the status followed by the results of
   * those that succeeded.
   */
  method Exchange(q: Queues, line: HardwareInterface, fw: Programmer, cs: seq<Command>) returns (status: byte)
    requires fw.Valid() && fw.Queued() == [] && fw.Received() == [] && line.incoming == []
    requires (forall c :: c in cs ==> IsCommand(c)) && NoTimeOut(fw.probe, fw.target, cs)
    requires |Packet(BytesOfAll(cs))| <= BUFFER_SIZE + 1 && RepliesFit(fw.probe, fw.target, cs, [], |cs| + 1)
    modifies q, line, fw, fw.rxbuffer, fw.txbuffer
    ensures var r := RunAll(fw.probe, old(fw.target), cs, []);
            status == r.status && q.resultQueue == r.results && fw.target == r.target
    ensures fw.Valid() && fw.Queued() == [] && fw.Received() == [] && line.incoming == []
  {
    hide RunAll, Serve, RepliesFit, NoTimeOut, BytesOf, BytesOfAll, Stuffed;
    ghost var packet, r := Packet(BytesOfAll(cs)), RunAll(fw.probe, fw.target, cs, []);
    var before, served := |line.sent|, |fw.serial|;
    q.QueueAll(cs);
    line.WritePacket(q.cmdQueue);
    assert line.sent[before..] == packet;
    NoTimeOutFinishes(fw.probe, fw.target, cs, []);
    OneAnswerIff(fw.probe, fw.target, cs, [], |cs| + 1);
    OnePacket(fw.serial, [Answer(r.status, r.results)]);
    fw.Loop(line.sent[before..], cs, |cs| + 1);
    assert fw.serial[served..] == Packet([r.status] + r.results);
    line.incoming := fw.serial[served..];
    status := q.ReadReply(line, r.status, r.results);
  }
}
