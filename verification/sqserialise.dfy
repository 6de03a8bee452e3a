/** Saving and loading compiled functions, over a stream. */
module ProtoSerialiser {
  import opened Objects
  import opened Bytecode
  import opened Bytes
  import opened ByteStream
  import opened ProtoStream

  /** No literal, name or parameter of the function or of a nested one is an object the stream has no form for. */
  predicate NoReferences(p: Proto) {
    && !p.sourcename.Ref? && !p.name.Ref? && NoneIsReference(p.literals) && NoneIsReference(p.parameters)
    && (forall o :: o in p.outers ==> !o.src.Ref? && !o.name.Ref?) && (forall l :: l in p.locals ==> !l.name.Ref?)
    && (forall f :: f in p.functions ==> NoReferences(f))
  }

  predicate NoneIsReference(xs: seq<SQObject>) {
    forall o :: o in xs ==> !o.Ref?
  }

  method WriteTag(s: SQStream, tag: nat, ghost rest: seq<byte>)
    modifies s
    ensures s.bytes + rest == old(s.bytes) + PutTag(tag, rest)
  {
    s.WriteWord(4, tag, rest);
  }

  method CheckTagOf(s: SQStream, tag: nat) returns (ok: bool)
    modifies s
    ensures match CheckTag(tag, old(s.bytes)) case Fail => !ok case Ok(_, rest) => ok && s.bytes == rest
  {
    var t;
    ok, t := s.ReadWord(4);
    if ok && t != tag { ok := false; }
  }

  method WriteObject(s: SQStream, o: SQObject, ghost rest: seq<byte>) returns (ok: bool)
    modifies s
    ensures ok <==> !o.Ref?
    ensures ok ==> s.bytes + rest == old(s.bytes) + PutObject(o, rest)
  {
    match o {
      case Null => WriteTag(s, OT_NULL, rest);
      case Bool(b) =>
        WriteTag(s, OT_BOOL, PutInteger(if b then 1 else 0, rest));
        s.WriteInteger(if b then 1 else 0, rest);
      case Integer(i) =>
        WriteTag(s, OT_INTEGER, PutInteger(i, rest));
        s.WriteInteger(i, rest);
      case Float(bits) =>
        WriteTag(s, OT_FLOAT, PutWord(4, bits % 0x1_0000_0000, rest));
        s.WriteWord(4, bits % 0x1_0000_0000, rest);
      case String(chars) =>
        WriteTag(s, OT_STRING, PutInteger(|chars|, PutList(PutChar, chars, rest)));
        s.WriteInteger(|chars|, PutList(PutChar, chars, rest));
        CharsAppend();
        s.WriteBlock(PutChar, chars, rest);
      case Ref(_, _) => return false;
    }
    ok := true;
  }

  method ReadObject(s: SQStream) returns (ok: bool, o: SQObject)
    modifies s
    ensures match GetObject(old(s.bytes)) case Fail => !ok case Ok(x, rest) => ok && o == x && s.bytes == rest
  {
    var t, i, v, chars;
    o := Null;
    ok, t := s.ReadWord(4);
    if !ok { return; }
    if t == OT_STRING {
      ok, i := s.ReadInteger();
      if !ok || i < 0 { return false, o; }
      ok, chars := s.ReadBlock(GetChar, i);
      o := String(chars);
    } else if t == OT_INTEGER {
      ok, i := s.ReadInteger();
      o := Integer(i);
    } else if t == OT_BOOL {
      ok, i := s.ReadInteger();
      o := Bool(i != 0);
    } else if t == OT_FLOAT {
      ok, v := s.ReadWord(4);
      o := Float(v);
    } else if t != OT_NULL {
      ok := false;
    }
  }

  /** A part of the stream: its tag and its objects. */
  method WriteObjects(s: SQStream, xs: seq<SQObject>, ghost rest: seq<byte>) returns (ok: bool)
    modifies s
    ensures ok <==> NoneIsReference(xs)
    ensures ok ==> s.bytes + rest == old(s.bytes) + PutPart(PutObject, xs, rest)
  {
    WriteTag(s, CLOSURESTREAM_PART, PutList(PutObject, xs, rest));
    var i := 0;
    assert xs[0..] == xs;
    while i < |xs|
      invariant 0 <= i <= |xs| && NoneIsReference(xs[..i])
      invariant s.bytes + PutList(PutObject, xs[i..], rest) == old(s.bytes) + PutPart(PutObject, xs, rest)
    {
      assert xs[i..][1..] == xs[i + 1..] && xs[..i + 1] == xs[..i] + [xs[i]];
      ok := WriteObject(s, xs[i], PutList(PutObject, xs[i + 1..], rest));
      if !ok {
        assert xs[i] in xs;
        return;
      }
      i := i + 1;
    }
    assert xs[..i] == xs;
    ok := true;
  }

  method ReadObjects(s: SQStream, n: int) returns (ok: bool, xs: seq<SQObject>)
    modifies s
    ensures match GetPart(GetObject, n, old(s.bytes)) case Fail => !ok
            case Ok(ys, rest) => ok && xs == ys && s.bytes == rest
  {
    hide GetObject, GetList, Prefixed;
    xs := [];
    ok := CheckTagOf(s, CLOSURESTREAM_PART);
    if !ok || n < 0 { return false, xs; }
    var i := 0;
    ghost var all := GetList(GetObject, n, s.bytes);
    PrefixedNext(xs, Null, all);
    while i < n
      invariant 0 <= i <= n
      invariant all == Prefixed(xs, GetList(GetObject, n - i, s.bytes))
    {
      ListUnfolds(xs, GetObject, n - i, s.bytes);
      var o;
      ok, o := ReadObject(s);
      if !ok { return; }
      xs := xs + [o];
      i := i + 1;
    }
    ListEnds(xs, GetObject, s.bytes);
    ok := true;
  }

  method WriteOuters(s: SQStream, padding: Padding, xs: seq<OuterVar>, ghost rest: seq<byte>) returns (ok: bool)
    modifies s
    ensures ok <==> forall o :: o in xs ==> !o.src.Ref? && !o.name.Ref?
    ensures ok ==> s.bytes + rest == old(s.bytes) + PutPart(OuterPutter(padding), xs, rest)
  {
    WriteTag(s, CLOSURESTREAM_PART, PutList(OuterPutter(padding), xs, rest));
    var i := 0;
    assert xs[0..] == xs;
    while i < |xs|
      invariant 0 <= i <= |xs| && forall o :: o in xs[..i] ==> !o.src.Ref? && !o.name.Ref?
      invariant s.bytes + PutList(OuterPutter(padding), xs[i..], rest) == old(s.bytes) +
                PutPart(OuterPutter(padding), xs, rest)
    {
      assert xs[i..][1..] == xs[i + 1..] && xs[..i + 1] == xs[..i] + [xs[i]] && xs[i] in xs;
      ghost var after := PutList(OuterPutter(padding), xs[i + 1..], rest);
      ok := WriteOuter(s, padding, xs[i], after);
      if !ok { return; }
      i := i + 1;
    }
    assert xs[..i] == xs;
    ok := true;
  }

  method WriteOuter(s: SQStream, padding: Padding, o: OuterVar, ghost rest: seq<byte>) returns (ok: bool)
    modifies s
    ensures ok <==> !o.src.Ref? && !o.name.Ref?
    ensures ok ==> s.bytes + rest == old(s.bytes) + OuterPutter(padding)(o, rest)
  {
    ghost var afterType := PutObject(o.src, PutObject(o.name, rest));
    s.WriteWord(4, o.kind, PutWord(4, padding(o) % 0x1_0000_0000, afterType));
    s.WriteWord(4, padding(o) % 0x1_0000_0000, afterType);
    ok := WriteObject(s, o.src, PutObject(o.name, rest));
    if !ok { return; }
    ok := WriteObject(s, o.name, rest);
  }

  method WriteLocals(s: SQStream, xs: seq<LocalVar>, ghost rest: seq<byte>) returns (ok: bool)
    modifies s
    ensures ok <==> forall l :: l in xs ==> !l.name.Ref?
    ensures ok ==> s.bytes + rest == old(s.bytes) + PutPart(PutLocal, xs, rest)
  {
    WriteTag(s, CLOSURESTREAM_PART, PutList(PutLocal, xs, rest));
    var i := 0;
    assert xs[0..] == xs;
    while i < |xs|
      invariant 0 <= i <= |xs| && forall l :: l in xs[..i] ==> !l.name.Ref?
      invariant s.bytes + PutList(PutLocal, xs[i..], rest) == old(s.bytes) + PutPart(PutLocal, xs, rest)
    {
      assert xs[i..][1..] == xs[i + 1..] && xs[..i + 1] == xs[..i] + [xs[i]] && xs[i] in xs;
      ok := WriteLocal(s, xs[i], PutList(PutLocal, xs[i + 1..], rest));
      if !ok { return; }
      i := i + 1;
    }
    assert xs[..i] == xs;
    ok := true;
  }

  method WriteLocal(s: SQStream, l: LocalVar, ghost rest: seq<byte>) returns (ok: bool)
    modifies s
    ensures ok <==> !l.name.Ref?
    ensures ok ==> s.bytes + rest == old(s.bytes) + PutLocal(l, rest)
  {
    ok := WriteObject(s, l.name, PutWord(8, l.pos, PutWord(8, l.startOp, PutWord(8, l.endOp, rest))));
    if !ok { return; }
    s.WriteWord(8, l.pos, PutWord(8, l.startOp, PutWord(8, l.endOp, rest)));
    s.WriteWord(8, l.startOp, PutWord(8, l.endOp, rest));
    s.WriteWord(8, l.endOp, rest);
  }

  method ReadOuter(s: SQStream) returns (ok: bool, o: OuterVar)
    modifies s
    ensures match GetOuter(old(s.bytes)) case Fail => !ok case Ok(x, rest) => ok && o == x && s.bytes == rest
  {
    hide GetObject;
    o := OuterVar(0, Null, Null);
    var t, src, name;
    ok, t := s.ReadWord(8);
    if !ok { return; }
    ok, src := ReadObject(s);
    if !ok { return; }
    ok, name := ReadObject(s);
    o := OuterVar(t % 0x1_0000_0000, src, name);
  }

  method ReadLocal(s: SQStream) returns (ok: bool, l: LocalVar)
    modifies s
    ensures match GetLocal(old(s.bytes)) case Fail => !ok case Ok(x, rest) => ok && l == x && s.bytes == rest
  {
    hide GetObject;
    l := LocalVar(Null, 0, 0, 0);
    var name, pos, startOp, endOp;
    ok, name := ReadObject(s);
    if !ok { return; }
    ok, pos := s.ReadWord(8);
    if !ok { return; }
    ok, startOp := s.ReadWord(8);
    if !ok { return; }
    ok, endOp := s.ReadWord(8);
    l := LocalVar(name, pos, startOp, endOp);
  }

  method ReadOuters(s: SQStream, n: int) returns (ok: bool, xs: seq<OuterVar>)
    modifies s
    ensures match GetPart(GetOuter, n, old(s.bytes)) case Fail => !ok
            case Ok(ys, rest) => ok && xs == ys && s.bytes == rest
  {
    hide GetOuter, GetList, Prefixed;
    xs := [];
    ok := CheckTagOf(s, CLOSURESTREAM_PART);
    if !ok || n < 0 { return false, xs; }
    var i := 0;
    ghost var all := GetList(GetOuter, n, s.bytes);
    PrefixedNext(xs, OuterVar(0, Null, Null), all);
    while i < n
      invariant 0 <= i <= n
      invariant all == Prefixed(xs, GetList(GetOuter, n - i, s.bytes))
    {
      ListUnfolds(xs, GetOuter, n - i, s.bytes);
      var o;
      ok, o := ReadOuter(s);
      if !ok { return; }
      xs := xs + [o];
      i := i + 1;
    }
    ListEnds(xs, GetOuter, s.bytes);
    ok := true;
  }

  method ReadLocals(s: SQStream, n: int) returns (ok: bool, xs: seq<LocalVar>)
    modifies s
    ensures match GetPart(GetLocal, n, old(s.bytes)) case Fail => !ok
            case Ok(ys, rest) => ok && xs == ys && s.bytes == rest
  {
    hide GetLocal, GetList, Prefixed;
    xs := [];
    ok := CheckTagOf(s, CLOSURESTREAM_PART);
    if !ok || n < 0 { return false, xs; }
    var i := 0;
    ghost var all := GetList(GetLocal, n, s.bytes);
    PrefixedNext(xs, LocalVar(Null, 0, 0, 0), all);
    while i < n
      invariant 0 <= i <= n
      invariant all == Prefixed(xs, GetList(GetLocal, n - i, s.bytes))
    {
      ListUnfolds(xs, GetLocal, n - i, s.bytes);
      var l;
      ok, l := ReadLocal(s);
      if !ok { return; }
      xs := xs + [l];
      i := i + 1;
    }
    ListEnds(xs, GetLocal, s.bytes);
    ok := true;
  }

  method ReadPart<T(!new)>(s: SQStream, get: seq<byte> -> Read<T>, n: int) returns (ok: bool, xs: seq<T>)
    modifies s
    ensures match GetPart(get, n, old(s.bytes)) case Fail => !ok case Ok(ys, rest) => ok && xs == ys && s.bytes == rest
  {
    ok := CheckTagOf(s, CLOSURESTREAM_PART);
    if !ok || n < 0 { return false, []; }
    ok, xs := s.ReadBlock(get, n);
  }

  // ---------- SQFunctionProto::Save ----------

  method SaveHead(s: SQStream, p: Proto, ghost rest: seq<byte>) returns (ok: bool)
    modifies s
    ensures ok <==> !p.sourcename.Ref? && !p.name.Ref?
    ensures ok ==> s.bytes + rest == old(s.bytes) + PutHead(p, rest)
  {
    ghost var counts := PutPart(PutInteger, Counts(p), rest);
    WriteTag(s, CLOSURESTREAM_PART, PutObject(p.sourcename, PutObject(p.name, counts)));
    ok := WriteObject(s, p.sourcename, PutObject(p.name, counts));
    if !ok { return; }
    ok := WriteObject(s, p.name, counts);
    if !ok { return; }
    WriteTag(s, CLOSURESTREAM_PART, PutList(PutInteger, Counts(p), rest));
    IntegersAppend();
    s.WriteBlock(PutInteger, Counts(p), rest);
  }

  method SaveTables(s: SQStream, padding: Padding, p: Proto, ghost rest: seq<byte>) returns (ok: bool)
    modifies s
    ensures ok <==> NoneIsReference(p.literals) && NoneIsReference(p.parameters)
                    && (forall o :: o in p.outers ==> !o.src.Ref? && !o.name.Ref?) &&
                       (forall l :: l in p.locals ==> !l.name.Ref?)
    ensures ok ==> s.bytes + rest == old(s.bytes) + PutTables(padding, p, rest)
  {
    hide PutPart;
    ghost var r3 := PutPart(PutLocal, p.locals, rest);
    ghost var r2 := PutPart(OuterPutter(padding), p.outers, r3);
    ok := WriteObjects(s, p.literals, PutPart(PutObject, p.parameters, r2));
    if !ok { return; }
    ok := WriteObjects(s, p.parameters, r2);
    if !ok { return; }
    ok := WriteOuters(s, padding, p.outers, r3);
    if !ok { return; }
    ok := WriteLocals(s, p.locals, rest);
  }

  method SaveCode(s: SQStream, p: Proto, ghost rest: seq<byte>)
    modifies s
    ensures s.bytes + rest == old(s.bytes) + PutCode(p, rest)
  {
    LinesAppend();
    IntegersAppend();
    InstrsAppend();
    ghost var r3 := PutTag(CLOSURESTREAM_PART, rest);
    ghost var r2 := PutPart(PutInstr, p.code, r3);
    ghost var r1 := PutPart(PutInteger, p.defaults, r2);
    WriteTag(s, CLOSURESTREAM_PART, PutList(PutLine, p.lines, r1));
    s.WriteBlock(PutLine, p.lines, r1);
    WriteTag(s, CLOSURESTREAM_PART, PutList(PutInteger, p.defaults, r2));
    s.WriteBlock(PutInteger, p.defaults, r2);
    WriteTag(s, CLOSURESTREAM_PART, PutList(PutInstr, p.code, r3));
    s.WriteBlock(PutInstr, p.code, r3);
    WriteTag(s, CLOSURESTREAM_PART, rest);
  }

  method SaveEnd(s: SQStream, p: Proto, ghost rest: seq<byte>)
    modifies s
    ensures s.bytes + rest == old(s.bytes) + PutEnd(p, rest)
  {
    var g := if p.generator then 1 else 0;
    s.WriteInteger(p.stacksize, PutWord(1, g, PutInteger(p.varparams, rest)));
    s.WriteWord(1, g, PutInteger(p.varparams, rest));
    s.WriteInteger(p.varparams, rest);
  }

  /** Appends the function to the stream. The result is false if it holds an object that has no form there. */
  method Save(s: SQStream, padding: Padding, p: Proto, ghost rest: seq<byte>) returns (ok: bool)
    modifies s
    ensures ok <==> NoReferences(p)
    ensures ok ==> s.bytes + rest == old(s.bytes) + PutProto(padding, p, rest)
    decreases p
  {
    hide PutHead, PutTables, PutCode, PutEnd;
    ghost var r3 := PutEnd(p, rest);
    ghost var r2 := PutProtos(padding, p.functions, r3);
    ghost var r1 := PutCode(p, r2);
    ok := SaveHead(s, p, PutTables(padding, p, r1));
    if !ok { return; }
    ok := SaveTables(s, padding, p, r1);
    if !ok { return; }
    SaveCode(s, p, r2);
    ok := SaveFunctions(s, padding, p.functions, r3);
    if !ok { return; }
    SaveEnd(s, p, rest);
  }

  method SaveFunctions(s: SQStream, padding: Padding, ps: seq<Proto>, ghost rest: seq<byte>) returns (ok: bool)
    modifies s
    ensures ok <==> forall f :: f in ps ==> NoReferences(f)
    ensures ok ==> s.bytes + rest == old(s.bytes) + PutProtos(padding, ps, rest)
    decreases ps
  {
    hide PutProto;
    var i := 0;
    assert ps[0..] == ps;
    while i < |ps|
      invariant 0 <= i <= |ps| && forall f :: f in ps[..i] ==> NoReferences(f)
      invariant s.bytes + PutProtos(padding, ps[i..], rest) == old(s.bytes) + PutProtos(padding, ps, rest)
    {
      assert ps[i..][1..] == ps[i + 1..] && ps[..i + 1] == ps[..i] + [ps[i]] && ps[i] in ps;
      ok := Save(s, padding, ps[i], PutProtos(padding, ps[i + 1..], rest));
      if !ok { return; }
      i := i + 1;
    }
    assert ps[..i] == ps;
    ok := true;
  }

  // ---------- SQFunctionProto::Load ----------

  method LoadBody(s: SQStream) returns (ok: bool, head: Head, tables: Tables, code: Code)
    modifies s
    ensures match GetBody(old(s.bytes)) case Fail =>
            !ok case Ok(v, rest) => ok && v == (head, tables, code) && s.bytes == rest
    ensures ok ==> |head.counts| == 8 && |s.bytes| < |old(s.bytes)|
  {
    hide GetPart;
    head, tables, code := Head(Null, Null, []), Tables([], [], [], []), Code([], [], []);
    ok, head := LoadHead(s);
    if !ok { return; }
    ok, tables := LoadTables(s, head.counts);
    if !ok { return; }
    ok, code := LoadCode(s, head.counts);
  }

  method LoadHead(s: SQStream) returns (ok: bool, head: Head)
    modifies s
    ensures match GetHead(old(s.bytes)) case Fail => !ok case Ok(v, rest) => ok && v == head && s.bytes == rest
  {
    hide GetPart;
    head := Head(Null, Null, []);
    var sourcename, name, counts;
    ok := CheckTagOf(s, CLOSURESTREAM_PART);
    if !ok { return; }
    ok, sourcename := ReadObject(s);
    if !ok { return; }
    ok, name := ReadObject(s);
    if !ok { return; }
    ok, counts := ReadPart(s, GetInteger, 8);
    head := Head(sourcename, name, counts);
  }

  method LoadTables(s: SQStream, n: seq<int>) returns (ok: bool, tables: Tables)
    requires |n| == 8
    modifies s
    ensures match GetTables(n, old(s.bytes)) case Fail => !ok case Ok(v, rest) => ok && v == tables && s.bytes == rest
  {
    hide GetPart;
    tables := Tables([], [], [], []);
    var literals, parameters, outers, locals;
    ok, literals := ReadObjects(s, n[0]);
    if !ok { return; }
    ok, parameters := ReadObjects(s, n[1]);
    if !ok { return; }
    ok, outers := ReadOuters(s, n[2]);
    if !ok { return; }
    ok, locals := ReadLocals(s, n[3]);
    tables := Tables(literals, parameters, outers, locals);
  }

  method LoadCode(s: SQStream, n: seq<int>) returns (ok: bool, code: Code)
    requires |n| == 8
    modifies s
    ensures match GetCode(n, old(s.bytes)) case Fail => !ok case Ok(v, rest) => ok && v == code && s.bytes == rest
  {
    hide GetPart;
    code := Code([], [], []);
    var lines, defaults, instructions;
    ok, lines := ReadPart(s, GetLine, n[4]);
    if !ok { return; }
    ok, defaults := ReadPart(s, GetInteger, n[5]);
    if !ok { return; }
    ok, instructions := ReadPart(s, GetInstr, n[6]);
    if !ok { return; }
    ok := CheckTagOf(s, CLOSURESTREAM_PART);
    code := Code(lines, defaults, instructions);
  }

  method LoadEnd(s: SQStream) returns (ok: bool, end: End)
    modifies s
    ensures match GetEnd(old(s.bytes)) case Fail => !ok case Ok(v, rest) => ok && v == end && s.bytes == rest
  {
    end := End(0, false, 0);
    var stacksize, generator, varparams;
    ok, stacksize := s.ReadInteger();
    if !ok { return; }
    ok, generator := s.ReadWord(1);
    if !ok { return; }
    ok, varparams := s.ReadInteger();
    end := End(stacksize, generator != 0, varparams);
  }

  /** Takes a function off the front of the stream. The result is false if there is none. */
  method Load(s: SQStream) returns (ok: bool, p: Proto)
    modifies s
    ensures match GetProto(old(s.bytes)) case Fail => !ok case Ok(q, rest) => ok && p == q && s.bytes == rest
    decreases |s.bytes|, 0
  {
    hide GetBody, GetEnd;
    var head, tables, code, functions, end;
    p := Proto(Null, Null, [], [], [], [], [], [], [], [], 0, false, 0);
    ok, head, tables, code := LoadBody(s);
    if !ok || head.counts[7] < 0 { return false, p; }
    ok, functions := LoadFunctions(s, head.counts[7]);
    if !ok { return; }
    ok, end := LoadEnd(s);
    p := Proto(head.sourcename, head.name, tables.literals, tables.parameters, tables.outers, tables.locals,
               code.lines, code.defaults, code.code, functions, end.stacksize, end.generator, end.varparams);
  }

  method LoadFunctions(s: SQStream, n: nat) returns (ok: bool, ps: seq<Proto>)
    modifies s
    ensures match GetProtos(n, old(s.bytes)) case Fail => !ok case Ok(qs, rest) => ok && ps == qs && s.bytes == rest
    decreases |s.bytes|, 1, n
  {
    hide GetProto;
    ps := [];
    var i := 0;
    ghost var start := s.bytes;
    PrefixedNext<Proto>(ps, Proto(Null, Null, [], [], [], [], [], [], [], [], 0, false, 0), GetProtos(n, start));
    while i < n
      invariant 0 <= i <= n && |s.bytes| <= |start|
      invariant GetProtos(n, start) == Prefixed(ps, GetProtos(n - i, s.bytes))
    {
      var p;
      ok, p := Load(s);
      if !ok { return; }
      PrefixedNext(ps, p, GetProtos(n - i - 1, s.bytes));
      ps := ps + [p];
      i := i + 1;
    }
    ok := true;
  }

  // ---------- SQClosure::Save and Load ----------

  method SaveClosure(s: SQStream, padding: Padding, p: Proto, ghost rest: seq<byte>) returns (ok: bool)
    modifies s
    ensures ok <==> NoReferences(p)
    ensures ok ==> s.bytes + rest == old(s.bytes) + PutClosure(padding, p, rest)
  {
    hide PutProto;
    ghost var r4 := PutTag(CLOSURESTREAM_TAIL, rest);
    ghost var r3 := PutProto(padding, p, r4);
    ghost var r2 := PutTag(SIZEOF_FLOAT, r3);
    ghost var r1 := PutTag(SIZEOF_INTEGER, r2);
    WriteTag(s, CLOSURESTREAM_HEAD, PutTag(SIZEOF_CHAR, r1));
    WriteTag(s, SIZEOF_CHAR, r1);
    WriteTag(s, SIZEOF_INTEGER, r2);
    WriteTag(s, SIZEOF_FLOAT, r3);
    ok := Save(s, padding, p, r4);
    if !ok { return; }
    WriteTag(s, CLOSURESTREAM_TAIL, rest);
  }

  method LoadClosure(s: SQStream) returns (ok: bool, p: Proto)
    modifies s
    ensures match GetClosure(old(s.bytes)) case Fail => !ok case Ok(q, rest) => ok && p == q && s.bytes == rest
  {
    hide GetProto;
    p := Proto(Null, Null, [], [], [], [], [], [], [], [], 0, false, 0);
    ok := CheckTagOf(s, CLOSURESTREAM_HEAD);
    if !ok { return; }
    ok := CheckTagOf(s, SIZEOF_CHAR);
    if !ok { return; }
    ok := CheckTagOf(s, SIZEOF_INTEGER);
    if !ok { return; }
    ok := CheckTagOf(s, SIZEOF_FLOAT);
    if !ok { return; }
    ok, p := Load(s);
    if !ok { return; }
    ok := CheckTagOf(s, CLOSURESTREAM_TAIL);
  }

  /** A function saved in front of other bytes is loaded as it was, and leaves these bytes. */
  method SaveThenLoad(padding: Padding, p: Proto, follows: seq<byte>) returns (q: Proto, left: seq<byte>)
    requires FitsStream(p)
    ensures q == p && left == follows
  {
    hide PutProto, GetProto, FitsStream;
    FitsHasNoReferences(p);
    ClosureRoundTrip(padding, p, follows);
    var s := new SQStream([]);
    var saved := SaveClosure(s, padding, p, follows);
    s.bytes := s.bytes + follows;
    assert s.bytes == [] + PutClosure(padding, p, follows) == PutClosure(padding, p, follows);
    var loaded;
    loaded, q := LoadClosure(s);
    left := s.bytes;
  }

  lemma {:induction false} FitsHasNoReferences(p: Proto)
    requires FitsStream(p)
    ensures NoReferences(p)
    decreases p
  {
    forall f | f in p.functions ensures NoReferences(f) {
      FitsHasNoReferences(f);
    }
  }

  lemma CharsAppend()
    ensures Appends(PutChar)
  {
    forall c, rest ensures PutChar(c, rest) == PutChar(c, []) + rest { WordAppends(1, c as int % 256, rest); }
  }

  lemma IntegersAppend()
    ensures Appends(PutInteger)
  {
    forall i, rest ensures PutInteger(i, rest) == PutInteger(i, []) + rest { WordAppends(8, i % TWO_64, rest); }
  }

  lemma LinesAppend()
    ensures Appends(PutLine)
  {
    forall l: LineInfo, rest ensures PutLine(l, rest) == PutLine(l, []) + rest {
      WordAppends(8, l.op % TWO_64, rest);
      WordAppendsTo(8, l.line % TWO_64, PutInteger(l.op, []), rest);
    }
  }

  lemma InstrsAppend()
    ensures Appends(PutInstr)
  {
    forall i: Instr, rest ensures PutInstr(i, rest) == PutInstr(i, []) + rest { InstrAppends(i, rest); }
  }

  lemma {:induction false} WordAppendsTo(n: nat, v: nat, x: seq<byte>, rest: seq<byte>)
    ensures PutWord(n, v, x + rest) == PutWord(n, v, x) + rest
  {
    WordAppends(n, v, x + rest);
    WordAppends(n, v, x);
    assert PutWord(n, v, []) + (x + rest) == PutWord(n, v, []) + x + rest;
  }

  lemma InstrAppends(i: Instr, rest: seq<byte>)
    ensures PutInstr(i, rest) == PutInstr(i, []) + rest
  {
    var x3 := PutWord(1, i.arg3 % 256, []);
    var x2 := PutWord(1, i.arg2 % 256, x3);
    var x1 := PutWord(1, i.arg0 % 256, x2);
    var x0 := PutWord(1, i.op % 256, x1);
    WordAppends(1, i.arg3 % 256, rest);
    WordAppendsTo(1, i.arg2 % 256, x3, rest);
    WordAppendsTo(1, i.arg0 % 256, x2, rest);
    WordAppendsTo(1, i.op % 256, x1, rest);
    WordAppendsTo(4, i.arg1 % 0x1_0000_0000, x0, rest);
  }

  /** A list whose first elements have been read already. */
  function Prefixed<T>(xs: seq<T>, r: Read<seq<T>>): Read<seq<T>> {
    match r
    case Fail => Fail
    case Ok(ys, rest) => Ok(xs + ys, rest)
  }

  lemma ListUnfolds<T>(xs: seq<T>, get: seq<byte> -> Read<T>, n: nat, b: seq<byte>)
    requires n > 0
    ensures Prefixed(xs, GetList(get, n, b)) ==
            match get(b)
            case Fail => Fail
            case Ok(x, rest) => Prefixed(xs + [x], GetList(get, n - 1, rest))
  {
    match get(b)
    case Fail =>
    case Ok(x, rest) => PrefixedNext(xs, x, GetList(get, n - 1, rest));
  }

  lemma {:induction false} ListEnds<T>(xs: seq<T>, get: seq<byte> -> Read<T>, b: seq<byte>)
    ensures Prefixed(xs, GetList(get, 0, b)) == Ok(xs, b)
  {
    assert xs + [] == xs;
  }

  lemma PrefixedNext<T>(xs: seq<T>, x: T, r: Read<seq<T>>)
    ensures Prefixed(xs, Prefixed([x], r)) == Prefixed(xs + [x], r)
    ensures Prefixed([], r) == r
  {
    if r.Ok? { assert xs + ([x] + r.value) == xs + [x] + r.value && [] + r.value == r.value; }
  }
}
