/** Consistent overhead byte stuffing, as the host and the firmware each implement it. */
module Cobs {
  import opened Bytes

  /** The longest run of bytes one code byte can announce. */
  const MAX_RUN := 254

  // ---------- what stuffing is ----------

  /** A run of bytes behind the code byte that says how long it is. */
  function Block(run: seq<byte>): (b: seq<byte>)
    requires |run| <= MAX_RUN
  {
    [|run| + 1] + run
  }

  /** The blocks of a message that starts with the run; each zero and each full run ends a block. */
  function Stuffed(run: seq<byte>, p: seq<byte>): seq<byte>
    requires |run| < MAX_RUN
    decreases |p|
  {
    if p == [] then Block(run)
    else if p[0] == 0 then Block(run) + Stuffed([], p[1..])
    else if |run| + 1 == MAX_RUN then Block(run + [p[0]]) + Stuffed([], p[1..])
    else Stuffed(run + [p[0]], p[1..])
  }

  /** A packet: the stuffed message and a zero. */
  function Packet(p: seq<byte>): seq<byte> {
    Stuffed([], p) + [0]
  }

  function BlockLength(b: seq<byte>): (n: nat)
    requires b != []
    ensures 1 <= n <= |b|
  {
    if b[0] <= 1 then 1 else if b[0] <= |b| then b[0] else |b|
  }

  /** Each block's run, and a zero after it unless the block is full. The last block may be cut short. */
  function Unstuffed(b: seq<byte>): seq<byte>
    decreases |b|
  {
    if b == [] then []
    else
      var n := BlockLength(b);
      b[1..n] + (if b[0] < 0xFF then [0] else []) + Unstuffed(b[n..])
  }

  ghost predicate NoZero(b: seq<byte>) {
    forall k :: 0 <= k < |b| ==> b[k] != 0
  }

  lemma {:induction false} UnstuffBlock(run: seq<byte>, rest: seq<byte>)
    requires |run| <= MAX_RUN
    ensures Unstuffed(Block(run) + rest) == run + (if |run| < MAX_RUN then [0] else []) + Unstuffed(rest)
  {
    var b := Block(run) + rest;
    assert b[1..BlockLength(b)] == run && b[BlockLength(b)..] == rest;
  }

  lemma UnstuffNothing()
    ensures Unstuffed([]) == []
  {
  }

  /** Decoding gives the message back, with a zero behind it. */
  lemma {:induction false} UnstuffStuffed(run: seq<byte>, p: seq<byte>)
    requires |run| < MAX_RUN
    ensures Unstuffed(Stuffed(run, p)) == run + p + [0]
    decreases |p|
  {
    hide Unstuffed;
    if p == [] {
      UnstuffNothing();
      UnstuffBlock(run, []);
      assert Block(run) + [] == Block(run);
    } else if p[0] == 0 {
      UnstuffBlock(run, Stuffed([], p[1..]));
      UnstuffStuffed([], p[1..]);
      assert run + [0] + ([] + p[1..] + [0]) == run + p + [0];
    } else if |run| + 1 == MAX_RUN {
      UnstuffBlock(run + [p[0]], Stuffed([], p[1..]));
      UnstuffStuffed([], p[1..]);
      assert run + [p[0]] + [] + ([] + p[1..] + [0]) == run + p + [0];
    } else {
      UnstuffStuffed(run + [p[0]], p[1..]);
      assert run + [p[0]] + p[1..] == run + p;
    }
  }

  /** There is no zero before the terminator. */
  lemma {:induction false} StuffedHasNoZero(run: seq<byte>, p: seq<byte>)
    requires |run| < MAX_RUN && NoZero(run)
    ensures NoZero(Stuffed(run, p))
    decreases |p|
  {
    if p == [] {
    } else if p[0] == 0 {
      StuffedHasNoZero([], p[1..]);
    } else if |run| + 1 == MAX_RUN {
      StuffedHasNoZero([], p[1..]);
    } else {
      StuffedHasNoZero(run + [p[0]], p[1..]);
    }
  }

  /** Bytes that are not zero go to the run. */
  lemma {:induction false} RunGrows(run: seq<byte>, a: seq<byte>, p: seq<byte>)
    requires |run| + |a| < MAX_RUN && NoZero(a)
    ensures Stuffed(run, a + p) == Stuffed(run + a, p)
    decreases |a|
  {
    if a == [] {
      assert a + p == p && run + a == run;
    } else {
      assert (a + p)[0] == a[0] && (a + p)[1..] == a[1..] + p && run + [a[0]] + a[1..] == run + a;
      RunGrows(run + [a[0]], a[1..], p);
    }
  }

  /**
   * Bytes up to a zero go behind the number of places to the next code byte, and the zero is left out; 254 bytes
   * without a zero go behind 0xFF, and nothing is left out.
   */
  lemma {:induction false} StuffedRuns(a: seq<byte>, p: seq<byte>)
    requires NoZero(a)
    ensures |a| < 254 ==> Stuffed([], a) == [|a| + 1] + a
    ensures |a| < 254 ==> Stuffed([], a + [0] + p) == [|a| + 1] + a + Stuffed([], p)
    ensures |a| == 254 ==> Stuffed([], a + p) == [0xFF] + a + Stuffed([], p)
  {
    if |a| < 254 {
      RunGrows([], a, []);
      RunGrows([], a, [0] + p);
      assert a + [] == a && [] + a == a && a + [0] + p == a + ([0] + p) && ([0] + p)[1..] == p;
    } else if |a| == 254 {
      var init := a[..253];
      RunGrows([], init, [a[253]] + p);
      assert [] + init == init && init + [a[253]] == a && a + p == init + ([a[253]] + p) && ([a[253]] + p)[1..] == p;
    }
  }

  /** One byte more for the first block, and one for every full run. */
  lemma {:induction false} StuffedLength(run: seq<byte>, p: seq<byte>)
    requires |run| < MAX_RUN
    ensures |run| + |p| + 1 <= |Stuffed(run, p)| <= |run| + |p| + 1 + (|run| + |p|) / MAX_RUN
    decreases |p|
  {
    if p == [] {
    } else if p[0] == 0 {
      StuffedLength([], p[1..]);
    } else if |run| + 1 == MAX_RUN {
      StuffedLength([], p[1..]);
      assert (|run| + |p|) / MAX_RUN == 1 + |p[1..]| / MAX_RUN;
    } else {
      StuffedLength(run + [p[0]], p[1..]);
    }
  }

  /** The packet of p: its only zero is at the end, it is that much longer, and it decodes to p and a zero. */
  lemma PacketOf(p: seq<byte>)
    ensures var e := Packet(p); var body := e[..|e| - 1];
            && |e| > 0 && e[|e| - 1] == 0 && NoZero(body) && |e| <= |p| + 2 + |p| / MAX_RUN && |p| < |body|
            && Unstuffed(body) == p + [0]
  {
    var e := Packet(p);
    assert e[..|e| - 1] == Stuffed([], p);
    StuffedHasNoZero([], p);
    StuffedLength([], p);
    UnstuffStuffed([], p);
    assert [] + p + [0] == p + [0];
  }

  lemma {:induction false} UnstuffedIsShorter(b: seq<byte>)
    ensures |Unstuffed(b)| <= |b|
    decreases |b|
  {
    if b != [] { UnstuffedIsShorter(b[BlockLength(b)..]); }
  }

  // ---------- the host ----------

  /** The state of an encoder: a message is stuffed once the code byte at codeIdx is filled in. */
  ghost predicate Encoding(out: seq<byte>, codeIdx: nat, code: int, p: seq<byte>, idx: nat) {
    && idx <= |p| && codeIdx < |out| && 1 <= code < 0xFF && |out| == codeIdx + code
    && out[..codeIdx] + Stuffed(out[codeIdx + 1..], p[idx..]) == Stuffed([], p)
  }

  /** Taking one more byte. x is the place held for the next code byte. */
  lemma EncodeByte(out: seq<byte>, codeIdx: nat, code: int, p: seq<byte>, idx: nat, x: byte)
    requires Encoding(out, codeIdx, code, p, idx) && idx < |p|
    ensures p[idx] == 0 ==> Encoding(out[codeIdx := code] + [x], |out|, 1, p, idx + 1)
    ensures p[idx] != 0 && code + 1 == 0xFF ==> Encoding((out + [p[idx]])[codeIdx := 0xFF] + [x], |out| + 1, 1, p,
                                                         idx + 1)
    ensures p[idx] != 0 && code + 1 < 0xFF ==> Encoding(out + [p[idx]], codeIdx, code + 1, p, idx + 1)
  {
    var run := out[codeIdx + 1..];
    assert p[idx..][1..] == p[idx + 1..];
    if p[idx] == 0 {
      var out' := out[codeIdx := code] + [x];
      assert out'[..|out|] == out[..codeIdx] + Block(run) && out'[|out| + 1..] == [];
      assert out[..codeIdx] + (Block(run) + Stuffed([], p[idx + 1..])) == out[..codeIdx] + Block(run) +
             Stuffed([], p[idx + 1..]);
    } else if code + 1 == 0xFF {
      var out' := (out + [p[idx]])[codeIdx := 0xFF] + [x];
      var full := Block(run + [p[idx]]);
      assert out'[..|out| + 1] == out[..codeIdx] + full && out'[|out| + 2..] == [];
      assert out[..codeIdx] + (full + Stuffed([], p[idx + 1..])) == out[..codeIdx] + full + Stuffed([], p[idx + 1..]);
    } else {
      assert (out + [p[idx]])[codeIdx + 1..] == run + [p[idx]] && (out + [p[idx]])[..codeIdx] == out[..codeIdx];
    }
  }

  /** What is written so far and the bytes to come fit the stuffed message. */
  lemma {:induction false} EncodingFits(out: seq<byte>, codeIdx: nat, code: int, p: seq<byte>, idx: nat)
    requires Encoding(out, codeIdx, code, p, idx)
    ensures |out| + |p| - idx <= |Stuffed([], p)|
  {
    StuffedLength(out[codeIdx + 1..], p[idx..]);
  }

  lemma {:induction false} EncodeEnd(out: seq<byte>, codeIdx: nat, code: int, p: seq<byte>)
    requires Encoding(out, codeIdx, code, p, |p|)
    ensures out[codeIdx := code] == Stuffed([], p)
  {
    hide Stuffed, Block;
    assert p[|p|..] == [];
    StuffedEnd(out[codeIdx + 1..]);
    FilledIn(out, codeIdx, code);
  }

  lemma {:induction false} StuffedEnd(run: seq<byte>)
    requires |run| < MAX_RUN
    ensures Stuffed(run, []) == Block(run)
  {
  }

  lemma FilledIn(out: seq<byte>, codeIdx: nat, code: byte)
    requires codeIdx < |out| == codeIdx + code && code < 0xFF
    ensures out[codeIdx := code] == out[..codeIdx] + Block(out[codeIdx + 1..])
  {
  }

  method Encode(indata: seq<byte>) returns (outdata: seq<byte>)
    ensures outdata == Packet(indata)
  {
    hide Stuffed;
    var idx: nat, codeIdx: nat := 0, 0;
    var code: byte := 1;
    outdata := [0];
    assert outdata[..0] + Stuffed(outdata[1..], indata[0..]) == Stuffed([], indata) by {
      assert outdata[1..] == [] && indata[0..] == indata && outdata[..0] == [];
    }
    while idx < |indata|
      invariant Encoding(outdata, codeIdx, code, indata, idx)
    {
      EncodeByte(outdata, codeIdx, code, indata, idx, 0);
      if indata[idx] == 0 {
        outdata := outdata[codeIdx := code];
        codeIdx := |outdata|;
        outdata := outdata + [0];
        code := 1;
      } else {
        outdata := outdata + [indata[idx]];
        code := code + 1;
        if code == 0xFF {
          outdata := outdata[codeIdx := code];
          codeIdx := |outdata|;
          outdata := outdata + [0];
          code := 1;
        }
      }
      idx := idx + 1;
    }
    EncodeEnd(outdata, codeIdx, code, indata);
    outdata := outdata[codeIdx := code];
    outdata := outdata + [0];
  }

  method Decode(indata: seq<byte>) returns (outdata: seq<byte>)
    ensures outdata == Unstuffed(indata)
  {
    hide Unstuffed;
    UnstuffNothing();
    var idx := 0;
    outdata := [];
    assert indata[0..] == indata;
    while idx < |indata|
      invariant 0 <= idx <= |indata| && outdata + Unstuffed(indata[idx..]) == Unstuffed(indata)
    {
      ghost var start, before := idx, outdata;
      ghost var n := BlockLength(indata[start..]);
      var code := indata[idx];
      idx := idx + 1;
      var i := 1;
      while idx < |indata| && i < code
        invariant i == idx - start && 1 <= i <= n && idx <= |indata|
        invariant outdata == before + indata[start + 1..idx]
      {
        outdata := outdata + [indata[idx]];
        idx := idx + 1;
        i := i + 1;
      }
      DecodeBlock(indata, start, before);
      if code < 0xFF {
        outdata := outdata + [0];
      }
    }
    assert indata[idx..] == [];
  }

  lemma DecodeBlock(b: seq<byte>, start: nat, before: seq<byte>)
    requires start < |b|
    ensures var n := BlockLength(b[start..]); var c := b[start];
            before + Unstuffed(b[start..]) == before + b[start + 1..start + n] + (if c < 0xFF then [0] else []) +
              Unstuffed(b[start + n..])
  {
    var n, c := BlockLength(b[start..]), b[start];
    assert b[start..][1..n] == b[start + 1..start + n] && b[start..][n..] == b[start + n..];
    var run, zero, rest := b[start + 1..start + n], (if c < 0xFF then [0] else []), Unstuffed(b[start + n..]);
    assert before + (run + zero + rest) == before + run + zero + rest;
  }

  // ---------- the firmware ----------

  /**
   * dst is filled from its start. The number of bytes written is not returned in the original, which looks for the
   * zero.
   */
  method StuffData(ptr: array<byte>, n: nat, dst: array<byte>) returns (ghost written: nat)
    requires n <= ptr.Length && ptr != dst && |Packet(ptr[..n])| <= dst.Length
    modifies dst
    ensures written == |Packet(ptr[..n])| && dst[..written] == Packet(ptr[..n])
  {
    hide Stuffed;
    var src: nat, d: nat, codePtr: nat := 0, 1, 0;
    var code: byte := 1;
    ghost var p := ptr[..n];
    StuffedLength([], p);
    assert dst[..0] + Stuffed(dst[..1][1..], p[0..]) == Stuffed([], p) by {
      assert dst[..1][1..] == [] && p[0..] == p && dst[..0] == [];
    }
    while src < n
      invariant 0 <= src <= n && d <= dst.Length && ptr[..n] == p
      invariant Encoding(dst[..d], codePtr, code, p, src)
    {
      code, codePtr, d := StuffByte(dst, code, codePtr, d, ptr[src], p, src);
      src := src + 1;
    }
    EncodingFits(dst[..d], codePtr, code, p, src);
    EncodeEnd(dst[..d], codePtr, code, p);
    ghost var out := dst[..d];
    dst[d] := 0;
    ghost var place := codePtr;
    codePtr, d := FinishBlock(dst, code, codePtr, d);
    assert dst[..d] == out[place := code] + [0];
    written := d;
  }

  method StuffByte(dst: array<byte>, code: byte, codePtr: nat, d: nat, b: byte, ghost p: seq<byte>, ghost src: nat)
    returns (code': byte, codePtr': nat, d': nat)
    requires d <= dst.Length && |Stuffed([], p)| < dst.Length && Encoding(dst[..d], codePtr, code, p, src) &&
             src < |p| && p[src] == b
    modifies dst
    ensures d' <= dst.Length && Encoding(dst[..d'], codePtr', code', p, src + 1)
  {
    hide Stuffed;
    ghost var out := dst[..d];
    EncodingFits(out, codePtr, code, p, src);
    EncodeByte(out, codePtr, code, p, src, dst[d]);
    if b == 0 {
      codePtr', d' := FinishBlock(dst, code, codePtr, d);
      code' := 1;
      assert dst[..d'] == out[codePtr := code] + [dst[d]];
    } else {
      dst[d] := b;
      codePtr', d', code' := codePtr, d + 1, code + 1;
      assert dst[..d'] == out + [b];
      if code' == 0xFF {
        EncodeByte(out, codePtr, code, p, src, 0);
        EncodingFits((out + [b])[codePtr := 0xFF] + [0], d', 1, p, src + 1);
        EncodeByte(out, codePtr, code, p, src, dst[d']);
        codePtr', d' := FinishBlock(dst, code', codePtr', d');
        code' := 1;
        assert dst[..d'] == (out + [b])[codePtr := 0xFF] + [dst[d' - 1]];
      }
    }
  }

  /** Fills in the code byte of a finished block and starts the next one. */
  method FinishBlock(dst: array<byte>, x: byte, codePtr: nat, d: nat) returns (codePtr': nat, d': nat)
    requires codePtr < d < dst.Length
    modifies dst
    ensures dst[..] == old(dst[..])[codePtr := x] && codePtr' == d && d' == d + 1
  {
    dst[codePtr] := x;
    codePtr', d' := d, d + 1;
  }

  /** Copies the bytes of one block, which may be cut short. */
  method CopyBlock(ptr: array<byte>, n: nat, dst: array<byte>, from: nat, at: nat, code: byte)
    returns (src: nat, bytes: nat)
    requires from <= n <= ptr.Length && n <= dst.Length && at < from && ptr != dst
    modifies dst
    ensures src == (if code == 0 then from else if from + code - 1 < n then from + code - 1 else n) &&
            bytes == at + src - from
    ensures dst[..bytes] == old(dst[..at]) + ptr[from..src]
  {
    src, bytes := from, at;
    var i := 1;
    while src < n && i < code
      invariant i == src - from + 1 && from <= src <= n && bytes == at + src - from && (i == 1 || i <= code)
      invariant dst[..bytes] == old(dst[..at]) + ptr[from..src]
    {
      dst[bytes] := ptr[src];
      src := src + 1;
      bytes := bytes + 1;
      i := i + 1;
    }
  }

  /** The result is the number of bytes decoded. */
  method UnStuffData(ptr: array<byte>, n: nat, dst: array<byte>) returns (bytes: nat)
    requires n <= ptr.Length && n <= dst.Length && ptr != dst
    modifies dst
    ensures bytes == |Unstuffed(ptr[..n])| <= dst.Length && dst[..bytes] == Unstuffed(ptr[..n])
  {
    hide Unstuffed;
    UnstuffNothing();
    UnstuffedIsShorter(ptr[..n]);
    var src := 0;
    bytes := 0;
    ghost var p := ptr[..n];
    assert p[0..] == p && dst[..0] + Unstuffed(p) == Unstuffed(p);
    while src < n
      invariant 0 <= src <= n && ptr[..n] == p && bytes <= src
      invariant dst[..bytes] + Unstuffed(p[src..]) == Unstuffed(p)
    {
      ghost var start, before, done := src, dst[..bytes], bytes;
      ghost var len := BlockLength(p[start..]);
      DecodeBlock(p, start, before);
      var code := ptr[src];
      src := src + 1;
      src, bytes := CopyBlock(ptr, n, dst, src, bytes, code);
      assert src == start + len && dst[..bytes] == before + p[start + 1..src];
      if code < 0xFF {
        dst[bytes] := 0;
        bytes := bytes + 1;
        assert dst[..bytes] == before + p[start + 1..src] + [0];
      }
    }
    assert p[src..] == [] && dst[..bytes] + [] == dst[..bytes];
  }

  // ---------- packets on the wire ----------

  /** Everything up to the first zero, and what follows it. None before a zero has come. */
  datatype Framed = Waiting | Frame(body: seq<byte>, rest: seq<byte>)

  function NextFrame(stream: seq<byte>): (f: Framed)
    ensures f.Frame? ==> |f.rest| < |stream|
  {
    if stream == [] then Waiting
    else if stream[0] == 0 then Frame([], stream[1..])
    else
      match NextFrame(stream[1..])
      case Waiting => Waiting
      case Frame(body, rest) => Frame([stream[0]] + body, rest)
  }

  lemma {:induction false} FrameOf(body: seq<byte>, rest: seq<byte>)
    requires NoZero(body)
    ensures NextFrame(body + [0] + rest) == Frame(body, rest)
  {
    var s := body + [0] + rest;
    if body != [] {
      assert s[1..] == body[1..] + [0] + rest;
      FrameOf(body[1..], rest);
    } else {
      assert s[1..] == rest;
    }
  }

  function Concat(packets: seq<seq<byte>>): seq<byte> {
    if packets == [] then [] else Packet(packets[0]) + Concat(packets[1..])
  }

  /** Decodes every frame of a stream. */
  function ReadAll(stream: seq<byte>): seq<seq<byte>>
    decreases |stream|
  {
    match NextFrame(stream)
    case Waiting => []
    case Frame(body, rest) => [DropLast(Unstuffed(body))] + ReadAll(rest)
  }

  function DropLast(b: seq<byte>): seq<byte> {
    if b == [] then [] else b[..|b| - 1]
  }

  lemma {:induction false} ReadPacketOf(p: seq<byte>, rest: seq<byte>)
    ensures NextFrame(Packet(p) + rest) == Frame(Stuffed([], p), rest) && DropLast(Unstuffed(Stuffed([], p))) == p
  {
    PacketOf(p);
    FrameOf(Stuffed([], p), rest);
    assert Packet(p)[..|Packet(p)| - 1] == Stuffed([], p);
    assert (p + [0])[..|p|] == p;
  }

  /** Packets sent one after the other are read one after the other. */
  lemma {:induction false} ConcatenatedPackets(packets: seq<seq<byte>>)
    ensures ReadAll(Concat(packets)) == packets
  {
    if packets != [] {
      ReadPacketOf(packets[0], Concat(packets[1..]));
      ConcatenatedPackets(packets[1..]);
    }
  }

  /** The host's end of the line. */
  class HardwareInterface {
    var sent: seq<byte>
    var incoming: seq<byte>

    constructor ()
      ensures sent == [] && incoming == []
    {
      sent, incoming := [], [];
    }

    method WritePacket(data: seq<byte>)
      modifies `sent
      ensures sent == old(sent) + Packet(data)
    {
      var cobsbuffer := Encode(data);
      sent := sent + cobsbuffer;
    }

    /** Reads up to a zero and decodes. The result is false after a time-out. */
    method ReadPacket() returns (ok: bool, data: seq<byte>)
      modifies `incoming
      ensures match NextFrame(old(incoming))
              case Waiting => !ok && incoming == []
              case Frame(body, rest) =>
                incoming == rest && (ok <==> Unstuffed(body) != []) && (ok ==> data == DropLast(Unstuffed(body)))
    {
      var rxbuffer: seq<byte> := [];
      data := [];
      var c: byte := 1;
      while c != 0
        invariant c != 0 ==> NextFrame(old(incoming)) == match NextFrame(incoming)
                                                         case Waiting => Waiting
                                                         case Frame(body, rest) => Frame(rxbuffer + body, rest)
        invariant c == 0 ==> rxbuffer != [] && NextFrame(old(incoming)) == Frame(rxbuffer[..|rxbuffer| - 1], incoming)
        decreases |incoming| + (if c != 0 then 1 else 0)
      {
        if incoming == [] { return false, []; }
        c := incoming[0];
        incoming := incoming[1..];
        rxbuffer := rxbuffer + [c];
      }
      rxbuffer := rxbuffer[..|rxbuffer| - 1];
      data := Decode(rxbuffer);
      ok := |data| > 0;
      if ok { data := data[..|data| - 1]; }
    }
  }
}
