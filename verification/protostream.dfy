/** The bytecode stream: a compiled function, with the functions nested in it, as bytes. */
module ProtoStream {
  import opened Objects
  import opened Bytecode
  import opened Bytes
  import opened ByteStream

  // object types, by their numbers
  const OT_NULL := 0x0100_0001
  const OT_INTEGER := 0x0500_0002
  const OT_FLOAT := 0x0500_0004
  const OT_BOOL := 0x0100_0008
  const OT_STRING := 0x0800_0010

  // 'SQIR', 'PART' and 'TAIL'
  const CLOSURESTREAM_HEAD := 0x5351_4952
  const CLOSURESTREAM_PART := 0x5041_5254
  const CLOSURESTREAM_TAIL := 0x5441_494C

  const SIZEOF_CHAR := 1
  const SIZEOF_INTEGER := 8
  const SIZEOF_FLOAT := 4

  /** A captured variable: the kind of its source, the source and its name. */
  datatype OuterVar = OuterVar(kind: nat, src: SQObject, name: SQObject)

  datatype LocalVar = LocalVar(name: SQObject, pos: nat, startOp: nat, endOp: nat)

  datatype LineInfo = LineInfo(line: int, op: int)

  datatype Proto = Proto(
    sourcename: SQObject, name: SQObject, literals: seq<SQObject>, parameters: seq<SQObject>, outers: seq<OuterVar>,
    locals: seq<LocalVar>, lines: seq<LineInfo>, defaults: seq<int>, code: seq<Instr>, functions: seq<Proto>,
    stacksize: int, generator: bool, varparams: int)

  // ---------- what can be written ----------

  /** The values the stream can hold, within the ranges of their C types. */
  predicate Serialisable(o: SQObject) {
    match o
    case Null => true
    case Bool(_) => true
    case Integer(i) => IsInteger(i)
    case Float(bits) => 0 <= bits < 0x1_0000_0000
    case String(s) => |s| < TWO_63 && forall k :: 0 <= k < |s| ==> s[k] as int < 256
    case Ref(_, _) => false
  }

  predicate SerialisableOuter(o: OuterVar) {
    o.kind < 0x1_0000_0000 && Serialisable(o.src) && Serialisable(o.name)
  }

  predicate SerialisableLocal(l: LocalVar) {
    Serialisable(l.name) && l.pos < TWO_64 && l.startOp < TWO_64 && l.endOp < TWO_64
  }

  predicate SerialisableLine(l: LineInfo) {
    IsInteger(l.line) && IsInteger(l.op)
  }

  predicate SerialisableInstr(i: Instr) {
    0 <= i.op < 256 && 0 <= i.arg0 < 256 && -0x8000_0000 <= i.arg1 < 0x8000_0000 && 0 <= i.arg2 < 256 &&
      0 <= i.arg3 < 256
  }

  predicate FitsStream(p: Proto) {
    && Serialisable(p.sourcename) && Serialisable(p.name)
    && (forall o :: o in p.literals ==> Serialisable(o)) && (forall o :: o in p.parameters ==> Serialisable(o))
    && (forall o :: o in p.outers ==> SerialisableOuter(o)) && (forall l :: l in p.locals ==> SerialisableLocal(l))
    && (forall l :: l in p.lines ==> SerialisableLine(l)) && (forall d :: d in p.defaults ==> IsInteger(d))
    && (forall i :: i in p.code ==> SerialisableInstr(i)) && (forall f :: f in p.functions ==> FitsStream(f))
    && IsInteger(p.stacksize) && IsInteger(p.varparams)
    && (forall n :: n in Counts(p) ==> IsInteger(n))
  }

  function Counts(p: Proto): seq<int> {
    [|p.literals|, |p.parameters|, |p.outers|, |p.locals|, |p.lines|, |p.defaults|, |p.code|, |p.functions|]
  }

  // ---------- writing, in front of what follows ----------

  function PutTag(tag: nat, rest: seq<byte>): seq<byte> {
    PutWord(4, tag, rest)
  }

  function PutChar(c: char, rest: seq<byte>): seq<byte> {
    PutWord(1, c as int % 256, rest)
  }

  function PutObject(o: SQObject, rest: seq<byte>): seq<byte> {
    match o
    case Null => PutTag(OT_NULL, rest)
    case Bool(b) => PutTag(OT_BOOL, PutInteger(if b then 1 else 0, rest))
    case Integer(i) => PutTag(OT_INTEGER, PutInteger(i, rest))
    case Float(bits) => PutTag(OT_FLOAT, PutWord(4, bits % 0x1_0000_0000, rest))
    case String(s) => PutTag(OT_STRING, PutInteger(|s|, PutList(PutChar, s, rest)))
    case Ref(_, _) => rest
  }

  /** What lies beside the 4 bytes of an outer's kind in memory: 8 bytes are written. */
  type Padding = OuterVar -> nat

  function PutOuter(padding: Padding, o: OuterVar, rest: seq<byte>): seq<byte> {
    PutWord(4, o.kind, PutWord(4, padding(o) % 0x1_0000_0000, PutObject(o.src, PutObject(o.name, rest))))
  }

  function OuterPutter(padding: Padding): (OuterVar, seq<byte>) -> seq<byte> {
    (o, r) => PutOuter(padding, o, r)
  }

  function PutLocal(l: LocalVar, rest: seq<byte>): seq<byte> {
    PutObject(l.name, PutWord(8, l.pos, PutWord(8, l.startOp, PutWord(8, l.endOp, rest))))
  }

  function PutLine(l: LineInfo, rest: seq<byte>): seq<byte> {
    PutInteger(l.line, PutInteger(l.op, rest))
  }

  /** The layout of an instruction in memory. */
  function PutInstr(i: Instr, rest: seq<byte>): seq<byte> {
    PutWord(4, i.arg1 % 0x1_0000_0000, PutWord(1, i.op % 256,
                                               PutWord(1, i.arg0 % 256,
                                                       PutWord(1, i.arg2 % 256, PutWord(1, i.arg3 % 256, rest)))))
  }

  function PutPart<T>(put: (T, seq<byte>) -> seq<byte>, xs: seq<T>, rest: seq<byte>): seq<byte> {
    PutTag(CLOSURESTREAM_PART, PutList(put, xs, rest))
  }

  function PutHead(p: Proto, rest: seq<byte>): seq<byte> {
    PutTag(CLOSURESTREAM_PART, PutObject(p.sourcename, PutObject(p.name, PutPart(PutInteger, Counts(p), rest))))
  }

  function PutTables(padding: Padding, p: Proto, rest: seq<byte>): seq<byte> {
    PutPart(PutObject, p.literals, PutPart(PutObject, p.parameters,
      PutPart(OuterPutter(padding), p.outers, PutPart(PutLocal, p.locals, rest))))
  }

  function PutCode(p: Proto, rest: seq<byte>): seq<byte> {
    PutPart(PutLine, p.lines, PutPart(PutInteger, p.defaults,
                                      PutPart(PutInstr, p.code, PutTag(CLOSURESTREAM_PART, rest))))
  }

  function PutEnd(p: Proto, rest: seq<byte>): seq<byte> {
    PutInteger(p.stacksize, PutWord(1, if p.generator then 1 else 0, PutInteger(p.varparams, rest)))
  }

  function PutProto(padding: Padding, p: Proto, rest: seq<byte>): seq<byte>
    decreases p
  {
    PutHead(p, PutTables(padding, p, PutCode(p, PutProtos(padding, p.functions, PutEnd(p, rest)))))
  }

  function PutProtos(padding: Padding, ps: seq<Proto>, rest: seq<byte>): seq<byte>
    decreases ps
  {
    if ps == [] then rest else PutProto(padding, ps[0], PutProtos(padding, ps[1..], rest))
  }

  function PutClosure(padding: Padding, p: Proto, rest: seq<byte>): seq<byte> {
    PutTag(CLOSURESTREAM_HEAD, PutTag(SIZEOF_CHAR, PutTag(SIZEOF_INTEGER, PutTag(SIZEOF_FLOAT,
      PutProto(padding, p, PutTag(CLOSURESTREAM_TAIL, rest))))))
  }

  // ---------- reading ----------

  /** The rest of the stream after a tag, if it is the expected one. */
  function CheckTag(tag: nat, b: seq<byte>): (r: Read<()>)
    ensures r.Ok? ==> |r.rest| < |b|
  {
    match GetWord(4, b)
    case Fail => Fail
    case Ok(t, rest) => if t == tag then Ok((), rest) else Fail
  }

  function GetChar(b: seq<byte>): (r: Read<char>)
    ensures r.Ok? ==> |r.rest| <= |b|
  {
    match GetWord(1, b)
    case Fail => Fail
    case Ok(v, rest) => PowerValues(); Ok(v as char, rest)
  }

  lemma {:induction false} ListShrinks<T(!new)>(get: seq<byte> -> Read<T>, n: nat, b: seq<byte>)
    ensures Consumes(get) && GetList(get, n, b).Ok? ==>
            |GetList(get, n, b).rest| <= |b| && |GetList(get, n, b).value| == n
  {
    if Consumes(get) { ListConsumes(get, n, b); }
  }

  function GetCounted<T(!new)>(get: seq<byte> -> Read<T>, n: int, b: seq<byte>): (r: Read<seq<T>>)
    ensures Consumes(get) && r.Ok? ==> |r.rest| <= |b| && |r.value| == n
  {
    if n < 0 then Fail else
      ListShrinks(get, n, b);
      GetList(get, n, b)
  }

  function GetString(b: seq<byte>): (r: Read<string>)
    ensures r.Ok? ==> |r.rest| <= |b|
  {
    match GetInteger(b)
    case Fail => Fail
    case Ok(len, rest) =>
      assert Consumes(GetChar);
      GetCounted(GetChar, len, rest)
  }

  function GetObject(b: seq<byte>): (r: Read<SQObject>)
    ensures r.Ok? ==> |r.rest| <= |b|
  {
    match GetWord(4, b)
    case Fail => Fail
    case Ok(t, rest) =>
      if t == OT_STRING then
        (match GetString(rest)
         case Fail => Fail
         case Ok(s, rest') => Ok(String(s), rest'))
      else if t == OT_INTEGER then
        (match GetInteger(rest)
         case Fail => Fail
         case Ok(i, rest') => Ok(Integer(i), rest'))
      else if t == OT_BOOL then
        (match GetInteger(rest)
         case Fail => Fail
         case Ok(i, rest') => Ok(Bool(i != 0), rest'))
      else if t == OT_FLOAT then
        (match GetWord(4, rest)
         case Fail => Fail
         case Ok(v, rest') => Ok(Float(v), rest'))
      else if t == OT_NULL then Ok(Null, rest)
      else Fail
  }

  function GetOuter(b: seq<byte>): (r: Read<OuterVar>)
    ensures r.Ok? ==> |r.rest| <= |b|
  {
    match GetWord(8, b)
    case Fail => Fail
    case Ok(t, r0) =>
      match GetObject(r0)
      case Fail => Fail
      case Ok(src, r1) =>
        match GetObject(r1)
        case Fail => Fail
        case Ok(name, r2) => Ok(OuterVar(t % 0x1_0000_0000, src, name), r2)
  }

  function GetLocal(b: seq<byte>): (r: Read<LocalVar>)
    ensures r.Ok? ==> |r.rest| <= |b|
  {
    match GetObject(b)
    case Fail => Fail
    case Ok(name, r0) =>
      match GetWord(8, r0)
      case Fail => Fail
      case Ok(pos, r1) =>
        match GetWord(8, r1)
        case Fail => Fail
        case Ok(startOp, r2) =>
          match GetWord(8, r2)
          case Fail => Fail
          case Ok(endOp, r3) => Ok(LocalVar(name, pos, startOp, endOp), r3)
  }

  function GetLine(b: seq<byte>): (r: Read<LineInfo>)
    ensures r.Ok? ==> |r.rest| <= |b|
  {
    match GetInteger(b)
    case Fail => Fail
    case Ok(line, r0) =>
      match GetInteger(r0)
      case Fail => Fail
      case Ok(op, r1) => Ok(LineInfo(line, op), r1)
  }

  function GetInstr(b: seq<byte>): (r: Read<Instr>)
    ensures r.Ok? ==> |r.rest| <= |b|
  {
    match GetWord(4, b)
    case Fail => Fail
    case Ok(a1, r0) =>
      match GetWord(1, r0)
      case Fail => Fail
      case Ok(op, r1) =>
        match GetWord(1, r1)
        case Fail => Fail
        case Ok(a0, r2) =>
          match GetWord(1, r2)
          case Fail => Fail
          case Ok(a2, r3) =>
            match GetWord(1, r3)
            case Fail => Fail
            case Ok(a3, r4) => Ok(Instr(op, a0, if a1 < 0x8000_0000 then a1 else a1 - 0x1_0000_0000, a2, a3), r4)
  }

  function GetPart<T(!new)>(get: seq<byte> -> Read<T>, n: int, b: seq<byte>): (r: Read<seq<T>>)
    ensures Consumes(get) && r.Ok? ==> |r.rest| < |b| && |r.value| == n
  {
    match CheckTag(CLOSURESTREAM_PART, b)
    case Fail => Fail
    case Ok(_, rest) => GetCounted(get, n, rest)
  }

  datatype Head = Head(sourcename: SQObject, name: SQObject, counts: seq<int>)

  function GetHead(b: seq<byte>): (r: Read<Head>)
    ensures r.Ok? ==> |r.rest| < |b| && |r.value.counts| == 8
  {
    assert Consumes(GetInteger);
    match CheckTag(CLOSURESTREAM_PART, b)
    case Fail => Fail
    case Ok(_, r0) =>
      match GetObject(r0)
      case Fail => Fail
      case Ok(sourcename, r1) =>
        match GetObject(r1)
        case Fail => Fail
        case Ok(name, r2) =>
          match GetPart(GetInteger, 8, r2)
          case Fail => Fail
          case Ok(counts, r3) => Ok(Head(sourcename, name, counts), r3)
  }

  datatype Tables = Tables(literals: seq<SQObject>, parameters: seq<SQObject>, outers: seq<OuterVar>,
                           locals: seq<LocalVar>)

  function GetTables(n: seq<int>, b: seq<byte>): (r: Read<Tables>)
    requires |n| == 8
    ensures r.Ok? ==> |r.rest| < |b|
  {
    assert Consumes(GetObject) && Consumes(GetOuter) && Consumes(GetLocal);
    match GetPart(GetObject, n[0], b)
    case Fail => Fail
    case Ok(literals, r0) =>
      match GetPart(GetObject, n[1], r0)
      case Fail => Fail
      case Ok(parameters, r1) =>
        match GetPart(GetOuter, n[2], r1)
        case Fail => Fail
        case Ok(outers, r2) =>
          match GetPart(GetLocal, n[3], r2)
          case Fail => Fail
          case Ok(locals, r3) => Ok(Tables(literals, parameters, outers, locals), r3)
  }

  datatype Code = Code(lines: seq<LineInfo>, defaults: seq<int>, code: seq<Instr>)

  function GetCode(n: seq<int>, b: seq<byte>): (r: Read<Code>)
    requires |n| == 8
    ensures r.Ok? ==> |r.rest| < |b|
  {
    assert Consumes(GetLine) && Consumes(GetInteger) && Consumes(GetInstr);
    match GetPart(GetLine, n[4], b)
    case Fail => Fail
    case Ok(lines, r0) =>
      match GetPart(GetInteger, n[5], r0)
      case Fail => Fail
      case Ok(defaults, r1) =>
        match GetPart(GetInstr, n[6], r1)
        case Fail => Fail
        case Ok(code, r2) =>
          match CheckTag(CLOSURESTREAM_PART, r2)
          case Fail => Fail
          case Ok(_, r3) => Ok(Code(lines, defaults, code), r3)
  }

  datatype End = End(stacksize: int, generator: bool, varparams: int)

  function GetEnd(b: seq<byte>): (r: Read<End>)
    ensures r.Ok? ==> |r.rest| <= |b|
  {
    match GetInteger(b)
    case Fail => Fail
    case Ok(stacksize, r0) =>
      match GetWord(1, r0)
      case Fail => Fail
      case Ok(generator, r1) =>
        match GetInteger(r1)
        case Fail => Fail
        case Ok(varparams, r2) => Ok(End(stacksize, generator != 0, varparams), r2)
  }

  /** Everything before the nested functions. */
  function GetBody(b: seq<byte>): (r: Read<(Head, Tables, Code)>)
    ensures r.Ok? ==> |r.rest| < |b| && |r.value.0.counts| == 8
  {
    match GetHead(b)
    case Fail => Fail
    case Ok(head, r0) =>
      match GetTables(head.counts, r0)
      case Fail => Fail
      case Ok(tables, r1) =>
        match GetCode(head.counts, r1)
        case Fail => Fail
        case Ok(code, r2) => Ok((head, tables, code), r2)
  }

  function GetProto(b: seq<byte>): (r: Read<Proto>)
    ensures r.Ok? ==> |r.rest| < |b|
    decreases |b|, 0
  {
    match GetBody(b)
    case Fail => Fail
    case Ok((head, tables, code), r0) =>
      if head.counts[7] < 0 then Fail
      else
        match GetProtos(head.counts[7], r0)
        case Fail => Fail
        case Ok(functions, r1) =>
          match GetEnd(r1)
          case Fail => Fail
          case Ok(end, r2) =>
            Ok(Proto(head.sourcename, head.name, tables.literals, tables.parameters, tables.outers, tables.locals,
                     code.lines, code.defaults, code.code, functions, end.stacksize, end.generator, end.varparams), r2)
  }

  function GetProtos(n: nat, b: seq<byte>): (r: Read<seq<Proto>>)
    ensures r.Ok? ==> |r.rest| <= |b|
    decreases |b|, 1, n
  {
    if n == 0 then Ok([], b)
    else
      match GetProto(b)
      case Fail => Fail
      case Ok(p, rest) =>
        match GetProtos(n - 1, rest)
        case Fail => Fail
        case Ok(ps, rest') => Ok([p] + ps, rest')
  }

  function GetClosure(b: seq<byte>): Read<Proto> {
    match CheckTag(CLOSURESTREAM_HEAD, b)
    case Fail => Fail
    case Ok(_, r0) =>
      match CheckTag(SIZEOF_CHAR, r0)
      case Fail => Fail
      case Ok(_, r1) =>
        match CheckTag(SIZEOF_INTEGER, r1)
        case Fail => Fail
        case Ok(_, r2) =>
          match CheckTag(SIZEOF_FLOAT, r2)
          case Fail => Fail
          case Ok(_, r3) =>
            match GetProto(r3)
            case Fail => Fail
            case Ok(p, r4) =>
              match CheckTag(CLOSURESTREAM_TAIL, r4)
              case Fail => Fail
              case Ok(_, r5) => Ok(p, r5)
  }

  // ---------- reading back what was written ----------

  lemma TagRoundTrip(tag: nat, rest: seq<byte>)
    requires tag < 0x1_0000_0000
    ensures CheckTag(tag, PutTag(tag, rest)) == Ok((), rest) && GetWord(4, PutTag(tag, rest)) == Ok(tag, rest)
  {
    PowerValues();
    WordRoundTrip(4, tag, rest);
  }

  lemma {:induction false} StringRoundTrip(s: string, rest: seq<byte>)
    requires Serialisable(String(s))
    ensures GetString(PutInteger(|s|, PutList(PutChar, s, rest))) == Ok(s, rest)
  {
    IntegerRoundTrip(|s|, PutList(PutChar, s, rest));
    forall c | c in s ensures Inverse(PutChar, GetChar, c) {
      forall r ensures GetChar(PutChar(c, r)) == Ok(c, r) {
        PowerValues();
        WordRoundTrip(1, c as int, r);
      }
    }
    ListRoundTrip(PutChar, GetChar, s, rest);
  }

  lemma ObjectRoundTrip(o: SQObject, rest: seq<byte>)
    requires Serialisable(o)
    ensures GetObject(PutObject(o, rest)) == Ok(o, rest)
  {
    PowerValues();
    match o
    case Null => TagRoundTrip(OT_NULL, rest);
    case Bool(b) =>
      TagRoundTrip(OT_BOOL, PutInteger(if b then 1 else 0, rest));
      IntegerRoundTrip(if b then 1 else 0, rest);
    case Integer(i) =>
      TagRoundTrip(OT_INTEGER, PutInteger(i, rest));
      IntegerRoundTrip(i, rest);
    case Float(bits) =>
      TagRoundTrip(OT_FLOAT, PutWord(4, bits, rest));
      WordRoundTrip(4, bits, rest);
    case String(s) =>
      TagRoundTrip(OT_STRING, PutInteger(|s|, PutList(PutChar, s, rest)));
      StringRoundTrip(s, rest);
  }

  /** Whatever the padding was, it is not read back. */
  lemma OuterRoundTrip(padding: Padding, o: OuterVar, rest: seq<byte>)
    requires SerialisableOuter(o)
    ensures GetOuter(PutOuter(padding, o, rest)) == Ok(o, rest)
  {
    hide GetObject, PutObject;
    PowerValues();
    var pad := padding(o) % 0x1_0000_0000;
    LowWord(4, 4, o.kind, pad, PutObject(o.src, PutObject(o.name, rest)));
    assert (o.kind + 0x1_0000_0000 * pad) % 0x1_0000_0000 == o.kind;
    ObjectRoundTrip(o.src, PutObject(o.name, rest));
    ObjectRoundTrip(o.name, rest);
  }

  lemma LocalRoundTrip(l: LocalVar, rest: seq<byte>)
    requires SerialisableLocal(l)
    ensures GetLocal(PutLocal(l, rest)) == Ok(l, rest)
  {
    PowerValues();
    var r2 := PutWord(8, l.endOp, rest);
    var r1 := PutWord(8, l.startOp, r2);
    ObjectRoundTrip(l.name, PutWord(8, l.pos, r1));
    WordRoundTrip(8, l.pos, r1);
    WordRoundTrip(8, l.startOp, r2);
    WordRoundTrip(8, l.endOp, rest);
  }

  lemma LineRoundTrip(l: LineInfo, rest: seq<byte>)
    requires SerialisableLine(l)
    ensures GetLine(PutLine(l, rest)) == Ok(l, rest)
  {
    IntegerRoundTrip(l.line, PutInteger(l.op, rest));
    IntegerRoundTrip(l.op, rest);
  }

  lemma InstrRoundTrip(i: Instr, rest: seq<byte>)
    requires SerialisableInstr(i)
    ensures GetInstr(PutInstr(i, rest)) == Ok(i, rest)
  {
    hide PutWord, GetWord;
    PowerValues();
    var r3 := PutWord(1, i.arg3, rest);
    var r2 := PutWord(1, i.arg2, r3);
    var r1 := PutWord(1, i.arg0, r2);
    var r0 := PutWord(1, i.op, r1);
    WordRoundTrip(4, i.arg1 % 0x1_0000_0000, r0);
    WordRoundTrip(1, i.op, r1);
    WordRoundTrip(1, i.arg0, r2);
    WordRoundTrip(1, i.arg2, r3);
    WordRoundTrip(1, i.arg3, rest);
  }

  lemma PartRoundTrip<T(!new)>(put: (T, seq<byte>) -> seq<byte>, get: seq<byte> -> Read<T>, xs: seq<T>, rest: seq<byte>)
    requires forall x :: x in xs ==> Inverse(put, get, x)
    ensures GetPart(get, |xs|, PutPart(put, xs, rest)) == Ok(xs, rest)
  {
    TagRoundTrip(CLOSURESTREAM_PART, PutList(put, xs, rest));
    ListRoundTrip(put, get, xs, rest);
  }

  lemma IntegersInverse(xs: seq<int>)
    requires forall x :: x in xs ==> IsInteger(x)
    ensures forall x :: x in xs ==> Inverse(PutInteger, GetInteger, x)
  {
    forall x | x in xs ensures Inverse(PutInteger, GetInteger, x) {
      forall r ensures GetInteger(PutInteger(x, r)) == Ok(x, r) { IntegerRoundTrip(x, r); }
    }
  }

  lemma ObjectsInverse(xs: seq<SQObject>)
    requires forall x :: x in xs ==> Serialisable(x)
    ensures forall x :: x in xs ==> Inverse(PutObject, GetObject, x)
  {
    forall x | x in xs ensures Inverse(PutObject, GetObject, x) {
      forall r ensures GetObject(PutObject(x, r)) == Ok(x, r) { ObjectRoundTrip(x, r); }
    }
  }

  lemma {:induction false} HeadRoundTrip(p: Proto, rest: seq<byte>)
    requires FitsStream(p)
    ensures GetHead(PutHead(p, rest)) == Ok(Head(p.sourcename, p.name, Counts(p)), rest)
  {
    var r2 := PutPart(PutInteger, Counts(p), rest);
    TagRoundTrip(CLOSURESTREAM_PART, PutObject(p.sourcename, PutObject(p.name, r2)));
    ObjectRoundTrip(p.sourcename, PutObject(p.name, r2));
    ObjectRoundTrip(p.name, r2);
    IntegersInverse(Counts(p));
    PartRoundTrip(PutInteger, GetInteger, Counts(p), rest);
  }

  lemma OutersInverse(padding: Padding, outers: seq<OuterVar>)
    requires forall o :: o in outers ==> SerialisableOuter(o)
    ensures forall o :: o in outers ==> Inverse(OuterPutter(padding), GetOuter, o)
  {
    forall o | o in outers ensures Inverse(OuterPutter(padding), GetOuter, o) {
      forall r ensures GetOuter(OuterPutter(padding)(o, r)) == Ok(o, r) { OuterRoundTrip(padding, o, r); }
    }
  }

  lemma LocalsInverse(locals: seq<LocalVar>)
    requires forall l :: l in locals ==> SerialisableLocal(l)
    ensures forall l :: l in locals ==> Inverse(PutLocal, GetLocal, l)
  {
    forall l | l in locals ensures Inverse(PutLocal, GetLocal, l) {
      forall r ensures GetLocal(PutLocal(l, r)) == Ok(l, r) { LocalRoundTrip(l, r); }
    }
  }

  lemma LinesInverse(lines: seq<LineInfo>)
    requires forall l :: l in lines ==> SerialisableLine(l)
    ensures forall l :: l in lines ==> Inverse(PutLine, GetLine, l)
  {
    forall l | l in lines ensures Inverse(PutLine, GetLine, l) {
      forall r ensures GetLine(PutLine(l, r)) == Ok(l, r) { LineRoundTrip(l, r); }
    }
  }

  lemma InstrsInverse(code: seq<Instr>)
    requires forall i :: i in code ==> SerialisableInstr(i)
    ensures forall i :: i in code ==> Inverse(PutInstr, GetInstr, i)
  {
    forall i | i in code ensures Inverse(PutInstr, GetInstr, i) {
      forall r ensures GetInstr(PutInstr(i, r)) == Ok(i, r) { InstrRoundTrip(i, r); }
    }
  }

  lemma {:induction false} TablesRoundTrip(padding: Padding, p: Proto, rest: seq<byte>)
    requires FitsStream(p)
    ensures GetTables(Counts(p), PutTables(padding, p, rest)) ==
            Ok(Tables(p.literals, p.parameters, p.outers, p.locals), rest)
  {
    hide GetPart, PutPart, GetObject, PutObject, GetOuter, GetLocal, PutLocal, OuterPutter;
    ObjectsInverse(p.literals);
    ObjectsInverse(p.parameters);
    OutersInverse(padding, p.outers);
    LocalsInverse(p.locals);
    var r3 := PutPart(PutLocal, p.locals, rest);
    var r2 := PutPart(OuterPutter(padding), p.outers, r3);
    var r1 := PutPart(PutObject, p.parameters, r2);
    PartRoundTrip(PutObject, GetObject, p.literals, r1);
    PartRoundTrip(PutObject, GetObject, p.parameters, r2);
    PartRoundTrip(OuterPutter(padding), GetOuter, p.outers, r3);
    PartRoundTrip(PutLocal, GetLocal, p.locals, rest);
  }

  lemma {:induction false} CodeRoundTrip(p: Proto, rest: seq<byte>)
    requires FitsStream(p)
    ensures GetCode(Counts(p), PutCode(p, rest)) == Ok(Code(p.lines, p.defaults, p.code), rest)
  {
    hide GetPart, PutPart, GetLine, PutLine, GetInstr, PutInstr, GetInteger, PutInteger;
    LinesInverse(p.lines);
    IntegersInverse(p.defaults);
    InstrsInverse(p.code);
    var r3 := PutTag(CLOSURESTREAM_PART, rest);
    var r2 := PutPart(PutInstr, p.code, r3);
    var r1 := PutPart(PutInteger, p.defaults, r2);
    PartRoundTrip(PutLine, GetLine, p.lines, r1);
    PartRoundTrip(PutInteger, GetInteger, p.defaults, r2);
    PartRoundTrip(PutInstr, GetInstr, p.code, r3);
    TagRoundTrip(CLOSURESTREAM_PART, rest);
  }

  lemma {:induction false} EndRoundTrip(p: Proto, rest: seq<byte>)
    requires FitsStream(p)
    ensures GetEnd(PutEnd(p, rest)) == Ok(End(p.stacksize, p.generator, p.varparams), rest)
  {
    PowerValues();
    var r1 := PutInteger(p.varparams, rest);
    IntegerRoundTrip(p.stacksize, PutWord(1, if p.generator then 1 else 0, r1));
    WordRoundTrip(1, if p.generator then 1 else 0, r1);
    IntegerRoundTrip(p.varparams, rest);
  }

  /** Loading what was saved gives an equal function, and leaves exactly the bytes that follow. */
  lemma {:induction false} ProtoRoundTrip(padding: Padding, p: Proto, rest: seq<byte>)
    requires FitsStream(p)
    ensures GetProto(PutProto(padding, p, rest)) == Ok(p, rest)
    decreases p
  {
    var r3 := PutEnd(p, rest);
    var r2 := PutProtos(padding, p.functions, r3);
    var r1 := PutCode(p, r2);
    var r0 := PutTables(padding, p, r1);
    HeadRoundTrip(p, r0);
    TablesRoundTrip(padding, p, r1);
    CodeRoundTrip(p, r2);
    ProtosRoundTrip(padding, p.functions, r3);
    EndRoundTrip(p, rest);
  }

  lemma {:induction false} ProtosRoundTrip(padding: Padding, ps: seq<Proto>, rest: seq<byte>)
    requires forall p :: p in ps ==> FitsStream(p)
    ensures GetProtos(|ps|, PutProtos(padding, ps, rest)) == Ok(ps, rest)
    decreases ps
  {
    if ps != [] {
      assert ps[0] in ps && ps == [ps[0]] + ps[1..];
      ProtoRoundTrip(padding, ps[0], PutProtos(padding, ps[1..], rest));
      ProtosRoundTrip(padding, ps[1..], rest);
    }
  }

  lemma {:induction false} ClosureRoundTrip(padding: Padding, p: Proto, rest: seq<byte>)
    requires FitsStream(p)
    ensures GetClosure(PutClosure(padding, p, rest)) == Ok(p, rest)
  {
    var r4 := PutTag(CLOSURESTREAM_TAIL, rest);
    var r3 := PutProto(padding, p, r4);
    var r2 := PutTag(SIZEOF_FLOAT, r3);
    var r1 := PutTag(SIZEOF_INTEGER, r2);
    TagRoundTrip(CLOSURESTREAM_HEAD, PutTag(SIZEOF_CHAR, r1));
    TagRoundTrip(SIZEOF_CHAR, r1);
    TagRoundTrip(SIZEOF_INTEGER, r2);
    TagRoundTrip(SIZEOF_FLOAT, r3);
    ProtoRoundTrip(padding, p, r4);
    TagRoundTrip(CLOSURESTREAM_TAIL, rest);
  }
}
