/** What the host gets back for a packet, in terms of what the probe does to the target. */
module ExchangeLaws {
  import opened Bytes
  import opened Protocol

  /** The four bytes of a word, the lowest first. */
  predicate LowestFirst(b: seq<byte>, w: word) {
    && |b| == 4 && b[0] == w % 0x100 && b[1] == w / 0x100 % 0x100 && b[2] == w / 0x1_0000 % 0x100
    && b[3] == w / 0x100_0000
  }

  /** The answer to a packet whose last access gave o: the word it read, or the status with which it failed. */
  ghost predicate AnswersRead(r: Reply, o: Outcome) {
    && r.status == o.stat && r.target == o.target
    && if o.stat == 0 then LowestFirst(r.results, o.data) else r.results == []
  }

  ghost predicate AnswersWrite(r: Reply, o: Outcome) {
    r.status == o.stat && r.target == o.target && r.results == []
  }

  function Answered(e: Effect): Reply {
    match e
    case Done(added, t) => Reply(0, added, t)
    case Stopped(stat, added, t) => Reply(stat, added, t)
    case Again(t) => Reply(STATUS_TIMEOUT, [], t)
  }

  lemma {:induction false} TwoCommands(probe: Probe, t: Target, c: Command, d: Command)
    ensures var e := Perform(probe, t, c);
            && RunAll(probe, t, [c], []) == Answered(e)
            && RunAll(probe, t, [c, d], []) == if e.Done? then RunAll(probe, e.target, [d], e.added) else Answered(e)
  {
    hide Perform;
    assert [c, d][1..] == [d] && [c][1..] == [];
    var e := Perform(probe, t, c);
    assert [] + Added(e) == Added(e);
  }

  /** Connecting gives the identification of the debug port; a read gives the word that the probe reads. */
  lemma {:induction false} ReadsAnswer(probe: Probe, t: Target, a: word, r: byte)
    ensures AnswersRead(RunAll(probe, t, [Connect], []), probe.connect(t))
    ensures AnswersRead(RunAll(probe, t, [ReadMem(a)], []), probe.readMemory(t, a))
    ensures AnswersRead(RunAll(probe, t, [ReadAP(a)], []), probe.readAP(t, a))
    ensures AnswersRead(RunAll(probe, t, [ReadDP(r)], []), probe.readDP(t, r))
  {
    hide RunAll;
    TwoCommands(probe, t, Connect, Connect);
    TwoCommands(probe, t, ReadMem(a), Connect);
    TwoCommands(probe, t, ReadAP(a), Connect);
    TwoCommands(probe, t, ReadDP(r), Connect);
  }

  /** A reset command with a byte that is not zero asserts the reset line, and with zero releases it. */
  lemma {:induction false} ResetSetsTheLine(probe: Probe, t: Target, state: byte)
    ensures RunAll(probe, t, [Reset(state)], []) == Reply(0, [], probe.setReset(t, state != 0))
  {
    hide RunAll;
    TwoCommands(probe, t, Reset(state), Connect);
  }

  /** The programmer's version and the size of its buffer; an unknown command ends the packet with 0xDEADBEEF. */
  lemma {:induction false} FixedAnswers(probe: Probe, t: Target, code: byte)
    ensures RunAll(probe, t, [GetProgId], []) == Reply(0, [1, 64, 0], t)
    ensures RunAll(probe, t, [Unknown(code)], []) == Reply(5, [0xEF, 0xBE, 0xAD, 0xDE], t)
  {
    hide RunAll;
    TwoCommands(probe, t, GetProgId, Connect);
    TwoCommands(probe, t, Unknown(code), Connect);
  }

  /**
   * A write and a read: the answer is what the probe reads at b after it has written d at a. If the memory reads back
   * what was written, that is d for b == a, and what was there for another b that is left alone.
   */
  lemma {:induction false} WriteThenReadMemory(probe: Probe, t: Target, a: word, d: word, b: word)
    ensures var r, o := RunAll(probe, t, [WriteMem(a, d), ReadMem(b)], []), probe.writeMemory(t, a, d);
            if o.stat == 0 then AnswersRead(r, probe.readMemory(o.target, b)) else AnswersWrite(r, o)
  {
    hide RunAll;
    TwoCommands(probe, t, WriteMem(a, d), ReadMem(b));
    TwoCommands(probe, probe.writeMemory(t, a, d).target, ReadMem(b), Connect);
  }

  lemma {:induction false} WriteThenReadAP(probe: Probe, t: Target, a: word, d: word, b: word)
    ensures var r, o := RunAll(probe, t, [WriteAP(a, d), ReadAP(b)], []), probe.writeAP(t, a, d);
            if o.stat == 0 then AnswersRead(r, probe.readAP(o.target, b)) else AnswersWrite(r, o)
  {
    hide RunAll;
    TwoCommands(probe, t, WriteAP(a, d), ReadAP(b));
    TwoCommands(probe, probe.writeAP(t, a, d).target, ReadAP(b), Connect);
  }

  lemma {:induction false} WriteThenReadDP(probe: Probe, t: Target, a: byte, d: word, b: byte)
    ensures var r, o := RunAll(probe, t, [WriteDP(a, d), ReadDP(b)], []), probe.writeDP(t, a, d);
            if o.stat == 0 then AnswersRead(r, probe.readDP(o.target, b)) else AnswersWrite(r, o)
  {
    hide RunAll;
    TwoCommands(probe, t, WriteDP(a, d), ReadDP(b));
    TwoCommands(probe, probe.writeDP(t, a, d).target, ReadDP(b), Connect);
  }

  // ---------- trying again ----------

  function MemoryReads(probe: Probe, address: word): Target -> Outcome {
    t => probe.readMemory(t, address)
  }

  function APReads(probe: Probe, address: word): Target -> Outcome {
    t => probe.readAP(t, address)
  }

  /** The target after so many of the same access. */
  function After(access: Target -> Outcome, t: Target, k: nat): Target {
    if k == 0 then t else After(access, access(t).target, k - 1)
  }

  /** What the access gives after so many of them. */
  function Nth(access: Target -> Outcome, t: Target, k: nat): Outcome {
    access(After(access, t, k))
  }

  lemma {:induction false} OneMore(access: Target -> Outcome, t: Target, k: nat)
    ensures After(access, t, k + 1) == Nth(access, t, k).target
  {
    if k > 0 { OneMore(access, access(t).target, k - 1); }
  }

  ghost predicate Lacks(access: Target -> Outcome, t: Target, mask: word, k: nat) {
    Nth(access, t, k).stat == 0 && !HasBitsOf(Nth(access, t, k).data, mask)
  }

  lemma {:induction false} WaitEnds(probe: Probe, t: Target, address: word, mask: word, tries: nat, k: nat)
    requires k <= tries && forall i: nat :: i < k ==> Lacks(MemoryReads(probe, address), t, mask, i)
    ensures WaitFor(probe, t, address, mask, tries) ==
            WaitFor(probe, After(MemoryReads(probe, address), t, k), address, mask, tries - k)
    decreases k
  {
    if k > 0 {
      var access := MemoryReads(probe, address);
      var o := access(t);
      assert Lacks(access, t, mask, 0);
      AllSetIff(o.data, mask);
      forall i: nat | i < k - 1 ensures Lacks(access, o.target, mask, i) { assert Lacks(access, t, mask, i + 1); }
      WaitEnds(probe, o.target, address, mask, tries - 1, k - 1);
    }
  }

  /**
   * A wait succeeds at the first of a hundred reads that shows all bits of the mask, fails at the first that fails
   * before that, and otherwise is told to be over time.
   */
  lemma {:induction false} WaitAnswers(probe: Probe, t: Target, address: word, mask: word, k: nat)
    requires k <= 100 && forall i: nat :: i < k ==> Lacks(MemoryReads(probe, address), t, mask, i)
    requires k < 100 ==> !Lacks(MemoryReads(probe, address), t, mask, k)
    ensures var r, access := RunAll(probe, t, [WaitMem(address, mask)], []), MemoryReads(probe, address);
            if k == 100 then r == Reply(1, [], After(access, t, 100)) else AnswersWrite(r, Nth(access, t, k))
  {
    hide RunAll;
    TwoCommands(probe, t, WaitMem(address, mask), Connect);
    WaitEnds(probe, t, address, mask, 100, k);
    AllSetIff(Nth(MemoryReads(probe, address), t, k).data, mask);
  }

  // ---------- packets of memory accesses ----------

  /** Reads show the memory and leave it as it is, writes change one word of it. */
  ghost predicate IsMemory(probe: Probe, memory: (Target, word) -> word) {
    && (forall t, a: word :: probe.readMemory(t, a).stat == 0 ==> probe.readMemory(t, a).data == memory(t, a))
    && (forall t, a: word, b: word :: memory(probe.readMemory(t, a).target, b) == memory(t, b))
    && (forall t, a: word, d: word, b: word :: probe.writeMemory(t, a, d).stat == 0 ==>
          memory(probe.writeMemory(t, a, d).target, b) == if a == b then d else memory(t, b))
  }

  predicate IsMemoryAccess(c: Command) {
    c.ReadMem? || c.WriteMem? || c.WaitMem?
  }

  /** The word at an address after some commands: the one that was written last. */
  function LastWritten(cs: seq<Command>, address: word, before: word): word {
    if cs == [] then before
    else match cs[|cs| - 1]
         case WriteMem(a, d) => if a == address then d else LastWritten(cs[..|cs| - 1], address, before)
         case _ => LastWritten(cs[..|cs| - 1], address, before)
  }

  function Reads(cs: seq<Command>): nat {
    if cs == [] then 0 else Reads(cs[..|cs| - 1]) + if cs[|cs| - 1].ReadMem? then 1 else 0
  }

  lemma {:induction false} WaitLeavesMemory(probe: Probe, memory: (Target, word) -> word, t: Target, address: word,
                                            mask: word, tries: nat, b: word)
    requires IsMemory(probe, memory)
    ensures memory(WaitFor(probe, t, address, mask, tries).target, b) == memory(t, b)
    decreases tries
  {
    if tries > 0 {
      WaitLeavesMemory(probe, memory, probe.readMemory(t, address).target, address, mask, tries - 1, b);
    }
  }

  /** The words that a packet reads are those written last before, by the packet or before it. */
  ghost predicate ReadsLastWritten(cs: seq<Command>, before: word -> word, results: seq<byte>) {
    && |results| == 4 * Reads(cs)
    && forall k | 0 <= k < |cs| && cs[k].ReadMem? ::
         && Reads(cs[..k]) < Reads(cs)
         && LowestFirst(results[4 * Reads(cs[..k])..4 * Reads(cs[..k]) + 4],
                        LastWritten(cs[..k], cs[k].address, before(cs[k].address)))
  }

  /** A packet that succeeds is its last command after the others, which succeed too. */
  lemma {:induction false} LastCommand(probe: Probe, t: Target, cs: seq<Command>, c: Command, results: seq<byte>)
    requires RunAll(probe, t, cs + [c], results).status == 0
    ensures var r := RunAll(probe, t, cs, results);
            r.status == 0 && RunAll(probe, t, cs + [c], results) == RunAll(probe, r.target, [c], r.results)
    decreases |cs|
  {
    hide Perform;
    if cs == [] {
      assert cs + [c] == [c];
    } else {
      assert (cs + [c])[0] == cs[0] && (cs + [c])[1..] == cs[1..] + [c];
      NoFailureIsOK(probe, t, cs[0]);
      var e := Perform(probe, t, cs[0]);
      LastCommand(probe, e.target, cs[1..], c, results + e.added);
    }
  }

  lemma NoCommands(probe: Probe, t: Target)
    ensures RunAll(probe, t, [], []) == Reply(0, [], t)
  {
  }

  lemma {:induction false} BrokenWait(probe: Probe, t: Target, address: word, mask: word, tries: nat)
    ensures var w := WaitFor(probe, t, address, mask, tries); w.Broken? ==> w.stat != 0
    decreases tries
  {
    if tries > 0 { BrokenWait(probe, probe.readMemory(t, address).target, address, mask, tries - 1); }
  }

  /** A packet that ends early does not answer that all is well. */
  lemma NoFailureIsOK(probe: Probe, t: Target, c: Command)
    ensures var e := Perform(probe, t, c); e.Stopped? ==> e.stat != 0
  {
    if c.WaitMem? { BrokenWait(probe, t, c.address, c.mask, MAX_RETRIES); }
  }

  /** One memory access at the end of a packet. */
  lemma {:induction false} AccessMemory(probe: Probe, memory: (Target, word) -> word, t: Target, c: Command,
                                        results: seq<byte>, b: word)
    requires IsMemory(probe, memory) && IsMemoryAccess(c) && RunAll(probe, t, [c], results).status == 0
    ensures var r := RunAll(probe, t, [c], results);
            && memory(r.target, b) == (if c.WriteMem? && c.address == b then c.data else memory(t, b))
            && (!c.ReadMem? ==> r.results == results)
            && (c.ReadMem? ==> exists w :: r.results == results + w && LowestFirst(w, memory(t, c.address)))
  {
    TwoCommands(probe, t, c, c);
    ResultsArePrefixed(probe, t, [c], results);
    if c.WaitMem? { WaitLeavesMemory(probe, memory, t, c.address, c.mask, MAX_RETRIES, b); }
    if c.ReadMem? { assert LowestFirst(WordBytes(memory(t, c.address)), memory(t, c.address)); }
  }

  /** A further command leaves the words that were read before as they are. */
  lemma {:induction false} OneMoreRead(init: seq<Command>, c: Command, before: word -> word, results: seq<byte>,
                                       w: seq<byte>)
    requires IsMemoryAccess(c) && ReadsLastWritten(init, before, results)
    requires if c.ReadMem? then LowestFirst(w, LastWritten(init, c.address, before(c.address))) else w == []
    ensures ReadsLastWritten(init + [c], before, results + w)
  {
    hide LowestFirst;
    var cs, n := init + [c], |init|;
    assert cs[..n] == init;
    if c.ReadMem? { IsFour(w, LastWritten(init, c.address, before(c.address))); }
    forall k | 0 <= k < n && cs[k].ReadMem?
      ensures Reads(cs[..k]) < Reads(cs)
      ensures LowestFirst((results + w)[4 * Reads(cs[..k])..4 * Reads(cs[..k]) + 4],
                          LastWritten(cs[..k], cs[k].address, before(cs[k].address)))
    {
      assert cs[..k] == init[..k] && cs[k] == init[k];
      var i := 4 * Reads(cs[..k]);
      assert (results + w)[i..i + 4] == results[i..i + 4];
    }
    if c.ReadMem? { assert (results + w)[4 * Reads(init)..4 * Reads(init) + 4] == w; }
  }

  lemma IsFour(b: seq<byte>, w: word)
    requires LowestFirst(b, w)
    ensures |b| == 4
  {
  }

  /**
   * If all commands of a packet of memory accesses succeed, the host gets the words that were written last, in the
   * order of the reads, and the memory keeps what was written last.
   */
  lemma {:induction false} PacketReadsLastWritten(probe: Probe, memory: (Target, word) -> word, t: Target,
                                                  cs: seq<Command>)
    requires IsMemory(probe, memory) && (forall c :: c in cs ==> IsMemoryAccess(c))
    requires RunAll(probe, t, cs, []).status == 0
    ensures var r := RunAll(probe, t, cs, []);
            && ReadsLastWritten(cs, a => memory(t, a), r.results)
            && forall b :: memory(r.target, b) == LastWritten(cs, b, memory(t, b))
    decreases |cs|
  {
    hide RunAll;
    if cs == [] {
      NoCommands(probe, t);
    } else {
      var n := |cs| - 1;
      var init, c := cs[..n], cs[n];
      assert cs == init + [c];
      LastCommand(probe, t, init, c, []);
      PacketReadsLastWritten(probe, memory, t, init);
      var r := RunAll(probe, t, init, []);
      var r' := RunAll(probe, t, cs, []);
      forall b: word ensures memory(r'.target, b) == LastWritten(cs, b, memory(t, b)) {
        AccessMemory(probe, memory, r.target, c, r.results, b);
      }
      AccessMemory(probe, memory, r.target, c, r.results, 0);
      var w := r'.results[|r.results|..];
      assert r'.results == r.results + w;
      OneMoreRead(init, c, a => memory(t, a), r.results, w);
    }
  }
}

/** The functions of the target scripts that make whole exchanges. */
module TargetFunctions {
  import opened Bytes
  import opened Cobs
  import opened Protocol
  import opened Firmware
  import opened HostSession
  import opened ExchangeLaws

  const MAX_CONNECTS := 10
  const MAX_WORDS := 6

  lemma WordIs(b: seq<byte>, w: word)
    requires LowestFirst(b, w)
    ensures b == WordBytes(w)
  {
  }

  function NextAddress(address: word): word {
    (address + 4) % 0x1_0000_0000
  }

  /** Reads of so many words one after the other. */
  function ReadCommands(address: word, n: nat): seq<Command>
    decreases n
  {
    if n == 0 then [] else [ReadMem(address)] + ReadCommands(NextAddress(address), n - 1)
  }

  /** The target after so many words have been read one after the other. */
  function AfterWords(probe: Probe, t: Target, address: word, n: nat): Target
    decreases n
  {
    if n == 0 then t else AfterWords(probe, probe.readMemory(t, address).target, NextAddress(address), n - 1)
  }

  /** What reading word k gives after the words before it have been read. */
  function NthWord(probe: Probe, t: Target, address: word, k: nat): Outcome {
    probe.readMemory(AfterWords(probe, t, address, k), (address + 4 * k) % 0x1_0000_0000)
  }

  lemma NextWord(probe: Probe, t: Target, address: word, k: nat)
    ensures NthWord(probe, t, address, k + 1) ==
            NthWord(probe, probe.readMemory(t, address).target, NextAddress(address), k)
  {
    assert (address + 4 * (k + 1)) % 0x1_0000_0000 == (NextAddress(address) + 4 * k) % 0x1_0000_0000;
  }

  /** So many words have been read one after the other without a failure. */
  ghost predicate AllRead(probe: Probe, t: Target, address: word, n: nat) {
    forall i: nat :: i < n ==> NthWord(probe, t, address, i).stat == 0
  }

  function Concatenated(ws: seq<word>): seq<byte> {
    if ws == [] then [] else WordBytes(ws[0]) + Concatenated(ws[1..])
  }

  function Data(probe: Probe, t: Target, address: word, n: nat): seq<word> {
    seq(n, i requires 0 <= i < n => NthWord(probe, t, address, i).data)
  }

  lemma {:induction false} DataOfFirst(probe: Probe, t: Target, address: word, n: nat, k: nat)
    requires 0 < k <= n
    ensures var o, next := probe.readMemory(t, address), NextAddress(address);
            && NthWord(probe, t, address, 0) == o
            && NthWord(probe, t, address, k) == NthWord(probe, o.target, next, k - 1)
            && (AllRead(probe, t, address, k) ==> o.stat == 0 && AllRead(probe, o.target, next, k - 1))
            && Data(probe, t, address, n) == [o.data] + Data(probe, o.target, next, n - 1)
            && AfterWords(probe, t, address, n) == AfterWords(probe, o.target, next, n - 1)
  {
    hide NthWord;
    var o, next := probe.readMemory(t, address), NextAddress(address);
    FirstWord(probe, t, address);
    NextWord(probe, t, address, k - 1);
    forall i: nat ensures NthWord(probe, t, address, i + 1) == NthWord(probe, o.target, next, i) {
      NextWord(probe, t, address, i);
    }
  }

  lemma FirstWord(probe: Probe, t: Target, address: word)
    ensures NthWord(probe, t, address, 0) == probe.readMemory(t, address)
  {
  }

  /** A packet of reads answers with the words in order, or with the status of the first read that fails. */
  lemma {:induction false} WordsAnswer(probe: Probe, t: Target, address: word, n: nat, k: nat)
    requires k <= n && AllRead(probe, t, address, k) && (k < n ==> NthWord(probe, t, address, k).stat != 0)
    ensures var r, o := RunAll(probe, t, ReadCommands(address, n), []), NthWord(probe, t, address, k);
            if k < n then r.status == o.stat && r.target == o.target
            else r == Reply(0, Concatenated(Data(probe, t, address, n)), AfterWords(probe, t, address, n))
    decreases n
  {
    hide NthWord, AllRead, Data, AfterWords;
    if n > 0 {
      var o, next := probe.readMemory(t, address), NextAddress(address);
      var rest := ReadCommands(next, n - 1);
      assert ReadCommands(address, n)[0] == ReadMem(address) && ReadCommands(address, n)[1..] == rest;
      FirstWord(probe, t, address);
      if k > 0 {
        DataOfFirst(probe, t, address, n, k);
        WordsAnswer(probe, o.target, next, n - 1, k - 1);
        ResultsArePrefixed(probe, o.target, rest, WordBytes(o.data));
        assert [] + WordBytes(o.data) == WordBytes(o.data);
        var data := Data(probe, t, address, n);
        assert data[0] == o.data && data[1..] == Data(probe, o.target, next, n - 1);
      }
    } else {
      NoWords(probe, t, address);
    }
  }

  lemma NoWords(probe: Probe, t: Target, address: word)
    ensures Data(probe, t, address, 0) == [] && AfterWords(probe, t, address, 0) == t
  {
  }

  /** Commands that add at most a word to the reply. */
  predicate IsShort(c: Command) {
    !c.WaitMem? && !c.GetProgId? && !c.Unknown?
  }

  lemma {:induction false} FewCommandsFit(probe: Probe, t: Target, cs: seq<Command>, results: seq<byte>)
    requires (forall c :: c in cs ==> IsShort(c)) && |results| + 4 * |cs| < BUFFER_SIZE - 1
    ensures NoTimeOut(probe, t, cs) && RepliesFit(probe, t, cs, results, |cs| + 1)
    decreases |cs|
  {
    if cs != [] {
      assert IsShort(cs[0]);
      var e := Perform(probe, t, cs[0]);
      if e.Done? { FewCommandsFit(probe, e.target, cs[1..], results + e.added); }
    }
  }

  lemma {:induction false} BytesOfFew(cs: seq<Command>)
    ensures |BytesOfAll(cs)| <= 9 * |cs|
    decreases |cs|
  {
    if cs != [] { BytesOfFew(cs[1..]); }
  }

  datatype Contents = Words(words: seq<word>) | Failed(status: byte) | Refused

  /** The words that the memory has from an address on, or the failure of the first read that fails. */
  ghost predicate WordsRead(probe: Probe, t: Target, address: word, n: nat, r: Contents, t': Target) {
    if AllRead(probe, t, address, n) then
      && r.Words? && |r.words| == n && t' == AfterWords(probe, t, address, n)
      && forall i: nat :: i < n ==> r.words[i] == NthWord(probe, t, address, i).data
    else
      exists k: nat :: k < n && AllRead(probe, t, address, k) && NthWord(probe, t, address, k).stat != 0 &&
        r == Failed(NthWord(probe, t, address, k).stat) && t' == NthWord(probe, t, address, k).target
  }

  ghost function FirstFailure(probe: Probe, t: Target, address: word, n: nat): (k: nat)
    ensures k <= n && AllRead(probe, t, address, k) && (k < n ==> NthWord(probe, t, address, k).stat != 0)
  {
    if n == 0 then 0
    else
      var k := FirstFailure(probe, t, address, n - 1);
      if k < n - 1 || NthWord(probe, t, address, k).stat != 0 then k else n
  }

  lemma {:induction false} ReadCommandsAreShort(address: word, n: nat)
    ensures |ReadCommands(address, n)| == n && forall c :: c in ReadCommands(address, n) ==> IsShort(c)
    decreases n
  {
    if n > 0 { ReadCommandsAreShort(NextAddress(address), n - 1); }
  }

  class Session {
    const queues: Queues
    const line: HardwareInterface
    const programmer: Programmer

    constructor (queues: Queues, line: HardwareInterface, programmer: Programmer)
      ensures this.queues == queues && this.line == line && this.programmer == programmer
    {
      this.queues, this.line, this.programmer := queues, line, programmer;
    }

    /** Nothing is under way. */
    ghost predicate Idle()
      reads line, programmer, programmer.rxbuffer, programmer.txbuffer
    {
      programmer.Valid() && programmer.Queued() == [] && programmer.Received() == [] && line.incoming == []
    }

    /** A packet of few commands: the status is popped, and the results are left in the queue. */
    method Execute(cs: seq<Command>) returns (status: byte)
      requires Idle() && |cs| <= MAX_WORDS && forall c :: c in cs ==> IsShort(c)
      modifies queues, line, programmer, programmer.rxbuffer, programmer.txbuffer
      ensures Idle()
      ensures var r := RunAll(programmer.probe, old(programmer.target), cs, []);
              status == r.status && queues.resultQueue == r.results && programmer.target == r.target
    {
      FewCommandsFit(programmer.probe, programmer.target, cs, []);
      BytesOfFew(cs);
      PacketOf(BytesOfAll(cs));
      status := Exchange(queues, line, programmer, cs);
    }

    /** Connects, in at most ten attempts: the identification of the target if one succeeds. */
    method Connect() returns (idcode: int)
      requires Idle()
      modifies queues, line, programmer, programmer.rxbuffer, programmer.txbuffer
      ensures Idle()
      ensures Connected(programmer.probe.connect, old(programmer.target), idcode, programmer.target)
    {
      var retries := 0;
      ghost var t, access := programmer.target, programmer.probe.connect;
      while retries < MAX_CONNECTS
        invariant Idle() && 0 <= retries <= MAX_CONNECTS && programmer.target == After(access, t, retries)
        invariant forall i: nat :: i < retries ==> Nth(access, t, i).stat != 0
      {
        ReadsAnswer(programmer.probe, programmer.target, 0, 0);
        ghost var o := Nth(access, t, retries);
        OneMore(access, t, retries);
        var result := Execute([Command.Connect]);
        var w := PopAnswer(o);
        if result == STATUS_OK { return w; }
        retries := retries + 1;
      }
      idcode := -1;
    }

    /** Reads an access port register until it has all bits of the mask. */
    method PollAP(address: word, mask: word) returns (status: byte)
      requires Idle()
      modifies queues, line, programmer, programmer.rxbuffer, programmer.txbuffer
      ensures Idle()
      ensures Polled(APReads(programmer.probe, address), old(programmer.target), mask, status, programmer.target)
    {
      var retries := 0;
      ghost var t, access := programmer.target, APReads(programmer.probe, address);
      while retries < MAX_RETRIES
        invariant Idle() && 0 <= retries <= MAX_RETRIES && programmer.target == After(access, t, retries)
        invariant forall i: nat :: i < retries ==> Lacks(access, t, mask, i)
      {
        ReadsAnswer(programmer.probe, programmer.target, address, 0);
        ghost var o := Nth(access, t, retries);
        OneMore(access, t, retries);
        status := Execute([ReadAP(address)]);
        if status != STATUS_OK { return; }
        var v := PopAnswer(o);
        AllSetIff(v, mask);
        if AllSet(v, mask) { return; }
        retries := retries + 1;
      }
      status := STATUS_TIMEOUT;
    }

    /** Reads up to six words from an address on. */
    method ReadMemoryWords(address: word, words: int) returns (r: Contents)
      requires Idle()
      modifies queues, line, programmer, programmer.rxbuffer, programmer.txbuffer
      ensures Idle()
      ensures words > MAX_WORDS ==> r == Refused && programmer.target == old(programmer.target)
      ensures words <= MAX_WORDS ==>
                WordsRead(programmer.probe, old(programmer.target), address, if words < 0 then 0 else words, r,
                          programmer.target)
    {
      if words > MAX_WORDS { return Refused; }
      var n: nat := if words < 0 then 0 else words;
      ghost var probe, t := programmer.probe, programmer.target;
      ghost var k := FirstFailure(probe, t, address, n);
      WordsAnswer(probe, t, address, n, k);
      ReadCommandsAreShort(address, n);
      var status := Execute(ReadCommands(address, n));
      if status != STATUS_OK { return Failed(status); }
      ghost var data := Data(probe, t, address, n);
      var contents: seq<word> := [];
      assert data[0..] == data;
      for i := 0 to n
        invariant Idle() && programmer.target == AfterWords(probe, t, address, n)
        invariant contents == data[..i] && queues.resultQueue == Concatenated(data[i..])
      {
        assert data[i..][1..] == data[i + 1..];
        var w := queues.PopQueuedWord(data[i], Concatenated(data[i + 1..]));
        contents := contents + [w];
      }
      r := Words(contents);
    }

    method PopAnswer(ghost o: Outcome) returns (w: word)
      requires if o.stat == 0 then LowestFirst(queues.resultQueue, o.data) else queues.resultQueue == []
      modifies queues
      ensures w == if o.stat == 0 then o.data else 0
    {
      if queues.resultQueue == [] {
        w := queues.PopUInt32();
      } else {
        WordIs(queues.resultQueue, o.data);
        assert WordBytes(o.data) == WordBytes(o.data) + [];
        w := queues.PopQueuedWord(o.data, []);
      }
    }
  }

  /** The outcome of the first attempt that succeeds, or -1 if ten do not. */
  ghost predicate Connected(access: Target -> Outcome, t: Target, idcode: int, t': Target) {
    exists k: nat :: k <= 10 && (forall i: nat :: i < k ==> Nth(access, t, i).stat != 0) &&
      if k == 10 then idcode == -1 && t' == After(access, t, 10)
      else Nth(access, t, k).stat == 0 && Nth(access, t, k).data == idcode && Nth(access, t, k).target == t'
  }

  /** The outcome of the first of a hundred reads that shows all bits of the mask, or of the first that fails before. */
  ghost predicate Polled(access: Target -> Outcome, t: Target, mask: word, status: byte, t': Target) {
    exists k: nat :: k <= 100 && (forall i: nat :: i < k ==> Lacks(access, t, mask, i)) &&
      if k == 100 then status == 1 && t' == After(access, t, 100)
      else !Lacks(access, t, mask, k) && status == Nth(access, t, k).stat && t' == Nth(access, t, k).target
  }
}
