/** The regular expression matcher. A pattern node with its successors is a list: node, next node, and so on. */
module Rex {
  datatype ClassItem = Range(left: char, right: char) | CharClass(id: char) | One(c: char)

  datatype Node =
    | Char(c: char)
    | Dot
    | Class(negated: bool, items: seq<ClassItem>)
    | CClass(id: char)
    | Bol
    | Eol
    | Greedy(elem: Node, p0: nat, p1: nat)
    | Or(left: List, right: List)
    | Group(list: List, capture: int)

  datatype List = Nil | Cons(head: Node, tail: List)

  /** What a character class such as \d holds. */
  type CType = (char, char) -> bool

  /** The greatest repetition count, which stands for no limit. */
  const NO_LIMIT := 0xFFFF

  predicate InClass(ctype: CType, items: seq<ClassItem>, c: char) {
    exists k :: 0 <= k < |items| && HasChar(ctype, items[k], c)
  }

  predicate HasChar(ctype: CType, item: ClassItem, c: char) {
    match item
    case Range(left, right) => left <= c <= right
    case CharClass(id) => ctype(id, c)
    case One(d) => c == d
  }

  // ---------- what a pattern means ----------

  /** The text from i to j is one of those the node stands for. */
  ghost predicate Matches(ctype: CType, text: string, node: Node, i: nat, j: nat)
    decreases node, 0, 0
  {
    match node
    case Char(c) => i < |text| && j == i + 1 && text[i] == c
    case Dot => i < |text| && j == i + 1
    case Class(negated, items) => i < |text| && j == i + 1 && InClass(ctype, items, text[i]) != negated
    case CClass(id) => i < |text| && j == i + 1 && ctype(id, text[i])
    case Bol => i == j == 0
    case Eol => i == j == |text|
    case Greedy(elem, p0, p1) =>
      exists n: nat :: (p0 <= n && (n <= p1 || p1 == NO_LIMIT)) && Repeats(ctype, text, elem, n, i, j)
    case Or(left, right) => MatchesList(ctype, text, left, i, j) || MatchesList(ctype, text, right, i, j)
    case Group(list, _) => MatchesList(ctype, text, list, i, j)
  }

  ghost predicate MatchesList(ctype: CType, text: string, list: List, i: nat, j: nat)
    decreases list, 0, 0
  {
    match list
    case Nil => i == j
    case Cons(h, t) => exists m: nat :: Matches(ctype, text, h, i, m) && MatchesList(ctype, text, t, m, j)
  }

  ghost predicate Repeats(ctype: CType, text: string, elem: Node, n: nat, i: nat, j: nat)
    decreases elem, 1, n
  {
    if n == 0 then i == j
    else exists m: nat :: Repeats(ctype, text, elem, n - 1, i, m) && Matches(ctype, text, elem, m, j)
  }

  /** Matches go forward and stay in the text. */
  lemma {:induction false} MatchesForward(ctype: CType, text: string, node: Node, i: nat, j: nat)
    requires Matches(ctype, text, node, i, j) && i <= |text|
    ensures i <= j <= |text|
    decreases node, 0, 0
  {
    match node
    case Greedy(elem, p0, p1) =>
      var n: nat :| (p0 <= n && (n <= p1 || p1 == NO_LIMIT)) && Repeats(ctype, text, elem, n, i, j);
      RepeatsForward(ctype, text, elem, n, i, j);
    case Or(left, right) => ListForward(ctype, text, if MatchesList(ctype, text, left, i, j) then left else right, i,
                                        j);
    case Group(list, _) => ListForward(ctype, text, list, i, j);
    case _ =>
  }

  lemma {:induction false} ListForward(ctype: CType, text: string, list: List, i: nat, j: nat)
    requires MatchesList(ctype, text, list, i, j) && i <= |text|
    ensures i <= j <= |text|
    decreases list, 0, 0
  {
    if list.Cons? {
      var m: nat :| Matches(ctype, text, list.head, i, m) && MatchesList(ctype, text, list.tail, m, j);
      MatchesForward(ctype, text, list.head, i, m);
      ListForward(ctype, text, list.tail, m, j);
    }
  }

  lemma {:induction false} RepeatsForward(ctype: CType, text: string, elem: Node, n: nat, i: nat, j: nat)
    requires Repeats(ctype, text, elem, n, i, j) && i <= |text|
    ensures i <= j <= |text|
    decreases elem, 1, n
  {
    if n > 0 {
      var m: nat :| Repeats(ctype, text, elem, n - 1, i, m) && Matches(ctype, text, elem, m, j);
      RepeatsForward(ctype, text, elem, n - 1, i, m);
      MatchesForward(ctype, text, elem, m, j);
    }
  }

  // ---------- where in the pattern a node is ----------

  function SizeOf(node: Node): nat {
    match node
    case Greedy(elem, _, _) => 1 + SizeOf(elem)
    case Or(left, right) => 1 + Size(left) + Size(right)
    case Group(list, _) => 1 + Size(list)
    case _ => 1
  }

  function Size(list: List): nat {
    match list
    case Nil => 0
    case Cons(h, t) => SizeOf(h) + Size(t)
  }

  /**
   * k is the size of the pattern after the list l, kn that after nx. The matcher only looks ahead to nodes after l,
   * or to the node right after the first one of l.
   */
  ghost predicate LooksAhead(l: List, k: nat, nx: List, kn: nat) {
    nx.Nil? || Size(nx) + kn <= k || (l.Cons? && nx == l.tail && kn == k)
  }

  /** Capturing groups have a number below n, repetition counts fit 16 bits. */
  predicate WellFormed(list: List, n: nat) {
    match list
    case Nil => true
    case Cons(h, t) => WellFormedNode(h, n) && WellFormed(t, n)
  }

  predicate WellFormedNode(node: Node, n: nat) {
    match node
    case Greedy(elem, p0, p1) => p0 <= NO_LIMIT && p1 <= NO_LIMIT && WellFormedNode(elem, n)
    case Or(left, right) => left.Cons? && right.Cons? && WellFormed(left, n) && WellFormed(right, n)
    case Group(list, capture) => list.Cons? && WellFormed(list, n) && -1 <= capture < n
    case _ => true
  }

  /** Without repetitions and alternatives. */
  predicate IsLiteral(node: Node) {
    match node
    case Greedy(_, _, _) => false
    case Or(_, _) => false
    case Group(list, _) => IsLiteralList(list)
    case _ => true
  }

  predicate IsLiteralList(list: List) {
    match list
    case Nil => true
    case Cons(h, t) => IsLiteral(h) && IsLiteralList(t)
  }

  datatype Capture = Capture(begin: int, len: int)

  class SQRex {
    const ctype: CType
    const text: string
    var currsubexp: nat
    var matches: seq<Capture>

    constructor (ctype: CType, text: string, nsubexpr: nat)
      ensures this.ctype == ctype && this.text == text && |matches| == nsubexpr
    {
      this.ctype, this.text := ctype, text;
      currsubexp, matches := 0, seq(nsubexpr, _ => Capture(0, 0));
    }

    /**
     * Matches the first node of l at str, -1 if it does not match. nx is what follows l, for a repetition to know
     * when to stop. Whatever nx is, a result is a match.
     */
    method MatchNode(l: List, str: nat, nx: List, ghost k: nat, ghost kn: nat) returns (r: int)
      requires l.Cons? && str <= |text| && WellFormed(l, |matches|) && WellFormed(nx, |matches|) &&
               LooksAhead(l, k, nx, kn)
      modifies this
      ensures |matches| == |old(matches)|
      ensures r != -1 ==> str <= r <= |text| && Matches(ctype, text, l.head, str, r)
      ensures IsLiteral(l.head) ==> forall j: nat :: Matches(ctype, text, l.head, str, j) ==> j == r
      decreases Size(l) + k, 1, 0
    {
      match l.head {
        case Greedy(elem, p0, p1) => r := MatchGreedy(l, str, nx, k, kn);
        case Or(left, right) =>
          r := MatchAlternative(l, left, str, Size(right) + Size(l.tail) + k, k);
          if r == -1 { r := MatchAlternative(l, right, str, Size(l.tail) + k, k); }
        case Group(list, capture) => r := MatchGroup(l, str, nx, k, kn);
        case Bol => r := if str == 0 then str else -1;
        case Eol => r := if str == |text| then str else -1;
        case Dot => r := if str == |text| then -1 else str + 1;
        case Class(negated, items) => r := if str == |text| then -1 else if InClass(ctype, items, text[str]) != negated
          then str + 1 else -1;
        case CClass(id) => r := if str == |text| then -1 else if ctype(id, text[str]) then str + 1 else -1;
        case Char(c) => r := if str == |text| then -1 else if text[str] != c then -1 else str + 1;
      }
    }

    method MatchGreedy(l: List, str: nat, nx: List, ghost k: nat, ghost kn: nat) returns (r: int)
      requires l.Cons? && l.head.Greedy? && str <= |text| && WellFormed(l, |matches|) && WellFormed(nx, |matches|) &&
               LooksAhead(l, k, nx, kn)
      modifies this
      ensures |matches| == |old(matches)|
      ensures r != -1 ==> str <= r <= |text| && Matches(ctype, text, l.head, str, r)
      decreases Size(l) + k, 0, 0
    {
      var elem, p0, p1 := l.head.elem, l.head.p0, l.head.p1;
      assert Size(l) == 1 + SizeOf(elem) + Size(l.tail) && Size(Cons(elem, Nil)) == SizeOf(elem);
      var stop := if l.tail.Cons? then l.tail else nx;
      ghost var ks := if l.tail.Cons? then k else kn;
      var nmatches, good := 0, str;
      while nmatches == NO_LIMIT || nmatches < p1
        invariant 0 <= nmatches <= NO_LIMIT + 1 && |matches| == |old(matches)|
        invariant str <= good <= |text| && Repeats(ctype, text, elem, nmatches, str, good)
        invariant nmatches <= p1 || p1 == NO_LIMIT
        decreases NO_LIMIT + 1 - nmatches
      {
        var s := MatchNode(Cons(elem, Nil), good, stop, Size(l.tail) + k, ks);
        if s == -1 { break; }
        assert Repeats(ctype, text, elem, nmatches + 1, str, s);
        nmatches, good := nmatches + 1, s;
        if stop.Cons? && (!stop.head.Greedy? || stop.head.p0 != 0) {
          var gnext := if stop.tail.Cons? then stop.tail else if nx.Cons? then nx.tail else Nil;
          var stopped := MatchNode(stop, good, gnext, ks, if stop.tail.Cons? then ks else kn);
          if stopped != -1 {
            if p0 == p1 && p0 == nmatches { break; }
            else if nmatches >= p0 && p1 == NO_LIMIT { break; }
            else if nmatches >= p0 && nmatches <= p1 { break; }
          }
        }
        if good >= |text| { break; }
      }
      if p0 == p1 && p0 == nmatches { return good; }
      else if nmatches >= p0 && p1 == NO_LIMIT { return good; }
      else if nmatches >= p0 && nmatches <= p1 { return good; }
      return -1;
    }

    /** One side of an alternative, node after node. */
    method MatchAlternative(ghost l: List, list: List, str: nat, ghost k: nat, ghost outer: nat) returns (r: int)
      requires list.Cons? && str <= |text| && WellFormed(list, |matches|) && Size(list) + k < Size(l) + outer
      modifies this
      ensures |matches| == |old(matches)|
      ensures r != -1 ==> str <= r <= |text| && MatchesList(ctype, text, list, str, r)
      decreases Size(l) + outer, 0, 0
    {
      var temp, cur := list, str;
      while true
        invariant temp.Cons? && Size(temp) <= Size(list) && WellFormed(temp, |matches|) && |matches| == |old(matches)|
        invariant str <= cur <= |text|
        invariant forall j: nat :: MatchesList(ctype, text, temp, cur, j) ==> MatchesList(ctype, text, list, str, j)
        decreases temp
      {
        r := MatchNode(temp, cur, Nil, k, 0);
        if r == -1 { return; }
        Consume(ctype, text, temp, cur, r, list, str);
        if temp.tail.Nil? {
          assert MatchesList(ctype, text, Nil, r, r);
          return;
        }
        temp, cur := temp.tail, r;
      }
    }

    method MatchGroup(l: List, str: nat, nx: List, ghost k: nat, ghost kn: nat) returns (r: int)
      requires l.Cons? && l.head.Group? && str <= |text| && WellFormed(l, |matches|) && WellFormed(nx, |matches|) &&
               LooksAhead(l, k, nx, kn)
      modifies this
      ensures |matches| == |old(matches)|
      ensures r != -1 ==> str <= r <= |text| && Matches(ctype, text, l.head, str, r)
      ensures IsLiteral(l.head) ==> forall j: nat :: Matches(ctype, text, l.head, str, j) ==> j == r
      decreases Size(l) + k, 0, 0
    {
      var list := l.head.list;
      assert Size(l) == 1 + Size(list) + Size(l.tail);
      var n, cur, capture := list, str, -1;
      if l.head.capture == currsubexp {
        capture := currsubexp;
        matches := matches[capture := matches[capture].(begin := cur)];
        currsubexp := currsubexp + 1;
      }
      var tempcap := currsubexp;
      while true
        invariant n.Cons? && Size(n) <= Size(list) && WellFormed(n, |matches|) && |matches| == |old(matches)| &&
                  -1 <= capture < |matches|
        invariant str <= cur <= |text|
        invariant forall j: nat :: MatchesList(ctype, text, n, cur, j) ==> MatchesList(ctype, text, list, str, j)
        invariant IsLiteral(l.head) ==> IsLiteralList(n) && OnlyBy(ctype, text, n, cur, list, str)
        decreases n
      {
        var subnext := if n.tail.Cons? then n.tail else nx;
        r := MatchNode(n, cur, subnext, Size(l.tail) + k, if n.tail.Cons? then Size(l.tail) + k else kn);
        if IsLiteral(l.head) { OnlyByRest(ctype, text, n, cur, r, list, str); }
        if r == -1 {
          if capture != -1 { matches := matches[capture := Capture(0, 0)]; }
          return;
        }
        Consume(ctype, text, n, cur, r, list, str);
        if n.tail.Nil? { break; }
        n, cur := n.tail, r;
      }
      assert MatchesList(ctype, text, Nil, r, r);
      currsubexp := tempcap;
      if capture != -1 { matches := matches[capture := matches[capture].(len := r - matches[capture].begin)]; }
    }

    /**
     * The whole text matches: if the result is true, the text is one the pattern stands for. Without repetitions and
     * alternatives, it is true for all of these.
     */
    method Match(pattern: Node) returns (ok: bool)
      requires pattern.Group? && WellFormedNode(pattern, |matches|)
      modifies this
      ensures ok ==> Matches(ctype, text, pattern, 0, |text|)
      ensures IsLiteral(pattern) ==> (ok <==> Matches(ctype, text, pattern, 0, |text|))
    {
      currsubexp := 0;
      var res := MatchNode(Cons(pattern, Nil), 0, Nil, 0, 0);
      ok := res != -1 && res == |text|;
    }

    /** Looks for a match, from the left. Without repetitions and alternatives it finds the first if there is one. */
    method Search(pattern: Node) returns (begin: int, end: int)
      requires pattern.Group? && WellFormedNode(pattern, |matches|)
      modifies this
      ensures begin != -1 ==> 0 <= begin < |text| && begin <= end <= |text| && Matches(ctype, text, pattern, begin, end)
      ensures IsLiteral(pattern) ==>
        forall i: nat, j: nat :: i < (if begin == -1 then |text| else begin) ==> !Matches(ctype, text, pattern, i, j)
    {
      begin, end := 0, -1;
      while begin < |text|
        invariant 0 <= begin <= |text| && WellFormedNode(pattern, |matches|)
        invariant IsLiteral(pattern) ==>
          forall i: nat, j: nat :: i < begin ==> !Matches(ctype, text, pattern, i, j)
      {
        currsubexp := 0;
        end := MatchNode(Cons(pattern, Nil), begin, Nil, 0, 0);
        if end != -1 { return; }
        begin := begin + 1;
      }
      begin := -1;
    }
  }

  /** The list matches only as what is left of it does. */
  ghost predicate OnlyBy(ctype: CType, text: string, rest: List, cur: nat, list: List, str: nat) {
    forall j: nat :: MatchesList(ctype, text, list, str, j) ==> MatchesList(ctype, text, rest, cur, j)
  }

  /** r is the only place where the first node of what is left can end. */
  lemma {:induction false} OnlyByRest(ctype: CType, text: string, rest: List, cur: nat, r: int, list: List, str: nat)
    requires rest.Cons? && OnlyBy(ctype, text, rest, cur, list, str)
    requires forall m: nat :: Matches(ctype, text, rest.head, cur, m) ==> m == r
    ensures if r < 0 then forall j: nat :: !MatchesList(ctype, text, list, str, j)
            else OnlyBy(ctype, text, rest.tail, r, list, str)
  {
    forall j: nat | MatchesList(ctype, text, list, str, j)
      ensures r >= 0 && MatchesList(ctype, text, rest.tail, r, j)
    {
      assert MatchesList(ctype, text, rest, cur, j);
    }
  }

  /** What is left of a list after its first node matched. */
  lemma Consume(ctype: CType, text: string, rest: List, cur: nat, r: nat, list: List, str: nat)
    requires rest.Cons? && Matches(ctype, text, rest.head, cur, r)
    requires forall j: nat :: MatchesList(ctype, text, rest, cur, j) ==> MatchesList(ctype, text, list, str, j)
    ensures forall j: nat :: MatchesList(ctype, text, rest.tail, r, j) ==> MatchesList(ctype, text, list, str, j)
  {
    forall j: nat | MatchesList(ctype, text, rest.tail, r, j) ensures MatchesList(ctype, text, rest, cur, j) {
    }
  }
}
