/** How the machine compares values, and which of them are false. */
module ObjectOperators {
  import opened Objects

  datatype Answer = Failed | Compared(ret: int)

  // the comparison an instruction asks for
  const CMP_G := 0
  const CMP_GE := 2
  const CMP_L := 3
  const CMP_LE := 4
  const CMP_3W := 5

  predicate IsNumeric(o: SQObject) {
    o.Integer? || o.Float?
  }

  predicate SameType(x: SQObject, y: SQObject) {
    match (x, y)
    case (Null, Null) => true
    case (Bool(_), Bool(_)) => true
    case (Integer(_), Integer(_)) => true
    case (Float(_), Float(_)) => true
    case (String(_), String(_)) => true
    case (Ref(k, _), Ref(l, _)) => k == l
    case _ => false
  }

  /** Compares two strings of C, which end at a zero: the order of their first difference. */
  function CompareChars(a: string, b: string): int {
    if a == [] || a[0] == '\0' then if b == [] || b[0] == '\0' then 0 else -1
    else if b == [] || b[0] == '\0' then 1
    else if a[0] < b[0] then -1
    else if a[0] > b[0] then 1
    else CompareChars(a[1..], b[1..])
  }

  /** null, booleans, integers and strings: the values whose comparison needs no metamethod, address or rounding. */
  predicate IsPlain(o: SQObject) {
    match o
    case Float(_) => false
    case Ref(_, _) => false
    case _ => true
  }

  /** ObjCmp. other is its answer where floats, addresses or metamethods decide. */
  function ObjCmp(x: SQObject, y: SQObject, other: Answer): Answer {
    if SameType(x, y) then
      if x == y then Compared(0)
      else
        match x
        case String(a) => Compared(CompareChars(a, y.chars))
        case Integer(i) => Compared(if i < y.i then -1 else 1)
        case Bool(b) => Compared(if y.b then -1 else 1)
        case _ => other
    else if IsNumeric(x) && IsNumeric(y) then other
    else if x == Null then Compared(-1)
    else if y == Null then Compared(1)
    else Failed
  }

  /** The value of a comparison that an instruction asks for. */
  function CompareOp(op: int, r: int): SQObject {
    if op == CMP_G then Bool(r > 0)
    else if op == CMP_GE then Bool(r >= 0)
    else if op == CMP_L then Bool(r < 0)
    else if op == CMP_LE then Bool(r <= 0)
    else Integer(r)
  }

  /** IsFalse. Both zeros of a float are false. */
  predicate IsFalse(o: SQObject) {
    match o
    case Null => true
    case Bool(b) => !b
    case Integer(i) => i == 0
    case Float(bits) => bits % 0x8000_0000 == 0
    case _ => false
  }

  // ---------- the order of plain values ----------

  /** The sign of ObjCmp where it answers, on values of one ordered kind. */
  function DefaultOrder(x: SQObject, y: SQObject): int {
    match ObjCmp(x, y, Failed)
    case Failed => 0
    case Compared(r) => r
  }

  /** Where ObjCmp can answer: one is null, or both are of one kind. Integers and floats are one kind. */
  predicate Comparable(x: SQObject, y: SQObject) {
    x == Null || y == Null || SameType(x, y) || (IsNumeric(x) && IsNumeric(y))
  }

  /** Where floats, addresses or metamethods decide. */
  predicate AsksOther(x: SQObject, y: SQObject) {
    x != y && if SameType(x, y) then x.Float? || x.Ref? else IsNumeric(x) && IsNumeric(y)
  }

  lemma ComparesIff(x: SQObject, y: SQObject, other: Answer)
    ensures ObjCmp(x, y, other).Compared? <==> Comparable(x, y) && (AsksOther(x, y) ==> other.Compared?)
    ensures ObjCmp(x, y, other).Compared? && !AsksOther(x, y) ==> ObjCmp(x, y, other) == ObjCmp(x, y, Failed)
  {
  }

  lemma {:induction false} CharsAreOrdered(a: string, b: string)
    ensures CompareChars(a, b) == -CompareChars(b, a)
    ensures a == b ==> CompareChars(a, b) == 0
    decreases |a|
  {
    if a != [] && b != [] && a[0] == b[0] { CharsAreOrdered(a[1..], b[1..]); }
  }

  lemma {:induction false} CharsAreTransitive(a: string, b: string, c: string)
    requires CompareChars(a, b) <= 0 && CompareChars(b, c) <= 0
    ensures CompareChars(a, c) <= 0
    decreases |a|
  {
    if a != [] && b != [] && c != [] && a[0] == b[0] == c[0] != '\0' { CharsAreTransitive(a[1..], b[1..], c[1..]); }
  }

  /** The characters of a string of C, and the zero that ends it. */
  function CharAt(a: string, k: nat): char {
    if k < |a| then a[k] else '\0'
  }

  /** Both strings have these characters. */
  ghost predicate AgreeUpTo(a: string, b: string, k: nat) {
    forall i: nat :: i < k ==> CharAt(a, i) == CharAt(b, i) != '\0'
  }

  /** At the first difference a has the smaller character, or ends. */
  ghost predicate CharsBelow(a: string, b: string) {
    exists k: nat :: AgreeUpTo(a, b, k) && CharAt(a, k) < CharAt(b, k)
  }

  lemma {:induction false} CharsBelowStep(a: string, b: string)
    requires CharAt(a, 0) == CharAt(b, 0) != '\0'
    ensures CharsBelow(a, b) <==> CharsBelow(a[1..], b[1..])
  {
    var a', b' := a[1..], b[1..];
    assert forall i: nat :: CharAt(a', i) == CharAt(a, i + 1) && CharAt(b', i) == CharAt(b, i + 1);
    if CharsBelow(a, b) {
      var k: nat :| AgreeUpTo(a, b, k) && CharAt(a, k) < CharAt(b, k);
      assert AgreeUpTo(a', b', k - 1) && CharAt(a', k - 1) < CharAt(b', k - 1);
    }
    if CharsBelow(a', b') {
      var k: nat :| AgreeUpTo(a', b', k) && CharAt(a', k) < CharAt(b', k);
      forall i: nat | i < k + 1 ensures CharAt(a, i) == CharAt(b, i) != '\0' {
        if i > 0 { assert CharAt(a', i - 1) == CharAt(b', i - 1); }
      }
      assert AgreeUpTo(a, b, k + 1) && CharAt(a, k + 1) < CharAt(b, k + 1);
    }
  }

  lemma {:induction false} ComparesFirstDifference(a: string, b: string)
    ensures CompareChars(a, b) < 0 <==> CharsBelow(a, b)
    decreases |a|
  {
    if CharAt(a, 0) == CharAt(b, 0) != '\0' {
      CharsBelowStep(a, b);
      ComparesFirstDifference(a[1..], b[1..]);
    } else if CharAt(a, 0) < CharAt(b, 0) {
      assert AgreeUpTo(a, b, 0);
    } else {
      forall k: nat | AgreeUpTo(a, b, k) ensures !(CharAt(a, k) < CharAt(b, k)) {
        if k > 0 { assert false; }
      }
    }
  }

  /** null is below everything else, false below true, and integers and strings are in their usual order. */
  ghost predicate Below(x: SQObject, y: SQObject) {
    match (x, y)
    case (Null, Null) => false
    case (Null, _) => true
    case (Bool(b), Bool(c)) => !b && c
    case (Integer(i), Integer(j)) => i < j
    case (String(a), String(b)) => CharsBelow(a, b)
    case _ => false
  }

  /** The comparison of plain values that are comparable is the order one expects. */
  lemma {:induction false} DefaultOrderIsBelow(x: SQObject, y: SQObject)
    requires IsPlain(x) && IsPlain(y) && Comparable(x, y)
    ensures DefaultOrder(x, y) < 0 <==> Below(x, y)
    ensures DefaultOrder(x, y) > 0 <==> Below(y, x)
  {
    if x.String? && y.String? {
      OrderOfStrings(x.chars, y.chars);
      CharsAreOrdered(x.chars, y.chars);
      ComparesFirstDifference(x.chars, y.chars);
      ComparesFirstDifference(y.chars, x.chars);
    }
  }

  /** Exactly null, false, the integer 0 and the two zeros of a float are false. */
  lemma FalseIff(o: SQObject)
    requires o.Float? ==> 0 <= o.bits < 0x1_0000_0000
    ensures IsFalse(o) <==> o in {Null, Bool(false), Integer(0), Float(0), Float(0x8000_0000)}
  {
  }

  lemma OrderOfStrings(a: string, b: string)
    ensures DefaultOrder(String(a), String(b)) == CompareChars(a, b)
  {
    CharsAreOrdered(a, b);
  }
}
