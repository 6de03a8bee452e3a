/** array.sort: a heapsort whose tree hangs from place 0, where the parent of place k is k / 2. */
module HeapSort {
  import opened Objects
  import opened ObjectOperators

  /** A comparison function of the program: what it answers may depend on the call. */
  type Comparison = (nat, SQObject, SQObject) -> Answer

  type Order = (SQObject, SQObject) -> int

  /** What may come before what. */
  type Relation = (SQObject, SQObject) -> bool

  type Elements = multiset<SQObject>

  // ---------- what a comparison has to do with an order ----------

  /** On the elements, le is reflexive and transitive. It need not relate any two of them. */
  ghost predicate IsPreorder(le: Relation, elems: Elements) {
    && (forall x :: x in elems ==> le(x, x))
    && (forall x, y, z :: x in elems && y in elems && z in elems && le(x, y) && le(y, z) ==> le(x, z))
  }

  /** What the comparison answers about two elements, if it does not fail, is true of le. */
  ghost predicate Tells(cmp: Comparison, le: Relation, elems: Elements) {
    forall t, x, y :: x in elems && y in elems && cmp(t, x, y).Compared? ==>
      (cmp(t, x, y).ret <= 0 ==> le(x, y)) && (cmp(t, x, y).ret >= 0 ==> le(y, x))
  }

  /** The comparison can be believed about the elements. What it does with other values is open. */
  ghost predicate Believable(cmp: Comparison, le: Relation, elems: Elements) {
    IsPreorder(le, elems) && Tells(cmp, le, elems)
  }

  /** The comparison answers about any two elements, and does not put one before itself. */
  ghost predicate NeverFails(cmp: Comparison, elems: Elements) {
    forall t, x, y :: x in elems && y in elems ==> cmp(t, x, y).Compared? && (x == y ==> cmp(t, x, y).ret >= 0)
  }

  lemma Told(cmp: Comparison, le: Relation, elems: Elements, t: nat, x: SQObject, y: SQObject)
    requires Believable(cmp, le, elems) && x in elems && y in elems && cmp(t, x, y).Compared?
    ensures cmp(t, x, y).ret <= 0 ==> AtMost(le, x, y)
    ensures cmp(t, x, y).ret >= 0 ==> AtMost(le, y, x)
    ensures IsPreorder(le, elems)
  {
  }

  lemma Asked(cmp: Comparison, elems: Elements, t: nat, x: SQObject, y: SQObject)
    requires NeverFails(cmp, elems) && x in elems && y in elems
    ensures cmp(t, x, y).Compared? && (x == y ==> cmp(t, x, y).ret >= 0)
  {
  }

  predicate AtMost(le: Relation, x: SQObject, y: SQObject) {
    le(x, y)
  }

  /** No place up to bottom is above its parent, as far as the parent is at or after `from`. */
  ghost predicate HeapFrom(s: seq<SQObject>, le: Relation, from: nat, bottom: int) {
    bottom < |s| && forall k :: 1 <= k <= bottom && from <= k / 2 ==> AtMost(le, s[k], s[k / 2])
  }

  /** A heap but for the children of root, which are not above root's parent either. */
  ghost predicate HeapBut(s: seq<SQObject>, le: Relation, from: nat, bottom: int, root: nat) {
    && bottom < |s|
    && (forall k :: 1 <= k <= bottom && from <= k / 2 && k / 2 != root ==> AtMost(le, s[k], s[k / 2]))
    && (from < root ==> forall k :: 1 <= k <= bottom && k / 2 == root ==> AtMost(le, s[k], s[root / 2]))
  }

  /** No child of root is above this one. */
  ghost predicate IsGreatestChild(s: seq<SQObject>, le: Relation, bottom: int, root: nat, child: nat) {
    bottom < |s| && child < |s| && forall k :: 1 <= k <= bottom && k / 2 == root ==> AtMost(le, s[k], s[child])
  }

  ghost predicate Sorted(s: seq<SQObject>, le: Relation, from: nat) {
    forall i, j :: from <= i < j < |s| ==> AtMost(le, s[i], s[j])
  }

  function Swapped(s: seq<SQObject>, i: nat, j: nat): seq<SQObject>
    requires i < |s| && j < |s|
  {
    s[i := s[j]][j := s[i]]
  }

  /** The first n elements are rearranged, the others are where they were. */
  ghost predicate Rearranged(s: seq<SQObject>, was: seq<SQObject>, n: nat) {
    && n <= |s| == |was| && multiset(s) == multiset(was)
    && multiset(s[..n]) == multiset(was[..n]) && s[n..] == was[n..]
  }

  lemma NothingIsMoved(s: seq<SQObject>, n: nat)
    requires n <= |s|
    ensures Rearranged(s, s, n)
  {
  }

  lemma SameElements(s: seq<SQObject>, was: seq<SQObject>, n: nat)
    requires Rearranged(s, was, n)
    ensures multiset(s) == multiset(was)
  {
  }

  lemma RearrangedTwice(s: seq<SQObject>, t: seq<SQObject>, was: seq<SQObject>, n: nat)
    requires Rearranged(s, t, n) && Rearranged(t, was, n)
    ensures Rearranged(s, was, n) && multiset(s) == multiset(was)
  {
  }

  lemma SwapRearranges(s: seq<SQObject>, was: seq<SQObject>, i: nat, j: nat, n: nat)
    requires Rearranged(s, was, n) && i < n && j < n
    ensures Rearranged(Swapped(s, i, j), was, n)
  {
    assert Swapped(s, i, j)[..n] == Swapped(s[..n], i, j);
    assert Swapped(s, i, j)[n..] == s[n..];
  }

  /** The greater child sinks root by one level. */
  lemma SinkOneLevel(s: seq<SQObject>, cmp: Comparison, le: Relation, from: nat, bottom: int, root: nat, child: nat)
    requires Believable(cmp, le, multiset(s)) && HeapBut(s, le, from, bottom, root) && from <= root &&
             1 <= child <= bottom && child / 2 == root && root != child
    requires IsGreatestChild(s, le, bottom, root, child)
    requires AtMost(le, s[root], s[child])
    ensures HeapBut(Swapped(s, root, child), le, from, bottom, child)
  {
    var t := Swapped(s, root, child);
    forall k | 1 <= k <= bottom && from <= k / 2 && k / 2 != child ensures AtMost(le, t[k], t[k / 2]) {
      if k / 2 == root {
        assert AtMost(le, s[k], s[child]);
      } else if k == root {
        assert AtMost(le, s[child], s[root / 2]);
      } else {
        assert AtMost(le, s[k], s[k / 2]);
      }
    }
    forall k | 1 <= k <= bottom && k / 2 == child ensures AtMost(le, t[k], t[child / 2]) {
      assert AtMost(le, s[k], s[k / 2]);
    }
  }

  /** When root is not below its greatest child the heap is whole. */
  lemma SunkFarEnough(s: seq<SQObject>, cmp: Comparison, le: Relation, from: nat, bottom: int, root: nat, child: nat)
    requires Believable(cmp, le, multiset(s)) && HeapBut(s, le, from, bottom, root) && root < |s| && child < |s| &&
             AtMost(le, s[child], s[root])
    requires IsGreatestChild(s, le, bottom, root, child)
    ensures HeapFrom(s, le, from, bottom)
  {
    forall k | 1 <= k <= bottom && k / 2 == root ensures AtMost(le, s[k], s[root]) {
      assert AtMost(le, s[k], s[child]) && AtMost(le, s[child], s[root]);
    }
  }

  lemma OnlyRootIsLoose(s: seq<SQObject>, le: Relation, root: nat, bottom: int)
    requires HeapFrom(s, le, root + 1, bottom)
    ensures HeapBut(s, le, root, bottom, root)
  {
  }

  lemma LeafIsInPlace(s: seq<SQObject>, le: Relation, from: nat, bottom: int, root: nat)
    requires HeapBut(s, le, from, bottom, root) && root * 2 > bottom
    ensures HeapFrom(s, le, from, bottom)
  {
  }

  lemma {:induction false} TopIsGreatest(s: seq<SQObject>, le: Relation, bottom: int, k: nat)
    requires IsPreorder(le, multiset(s)) && HeapFrom(s, le, 0, bottom) && k <= bottom
    ensures AtMost(le, s[k], s[0])
    decreases k
  {
    if k > 0 {
      TopIsGreatest(s, le, bottom, k / 2);
      assert AtMost(le, s[k], s[k / 2]);
    }
  }

  /** Compares the elements in two places. Under a comparison that never fails there is an answer. */
  method Compare(arr: array<SQObject>, i: nat, j: nat, cmp: Comparison, calls: nat, ghost le: Relation)
    returns (answer: Answer, calls': nat)
    requires i < arr.Length && j < arr.Length
    ensures NeverFails(cmp, multiset(arr[..])) ==> answer.Compared? && (i == j ==> answer.ret >= 0)
    ensures answer.Compared? && Believable(cmp, le, multiset(arr[..])) ==>
            && (answer.ret <= 0 ==> AtMost(le, arr[..][i], arr[..][j]))
            && (answer.ret >= 0 ==> AtMost(le, arr[..][j], arr[..][i]))
  {
    hide Believable, NeverFails, AtMost;
    assert arr[..][i] in arr[..] && arr[..][j] in arr[..];
    if NeverFails(cmp, multiset(arr[..])) { Asked(cmp, multiset(arr[..]), calls, arr[i], arr[j]); }
    answer, calls' := cmp(calls, arr[i], arr[j]), calls + 1;
    if answer.Compared? && Believable(cmp, le, multiset(arr[..])) {
      Told(cmp, le, multiset(arr[..]), calls, arr[i], arr[j]);
    }
  }

  /** The greater child of root. At the top it is the top itself unless place 1 holds no less. */
  method GreaterChild(arr: array<SQObject>, root: nat, bottom: int, cmp: Comparison, calls: nat, ghost le: Relation)
    returns (ok: bool, maxChild: nat, calls': nat)
    requires root * 2 <= bottom < arr.Length
    ensures ok ==> maxChild <= bottom && maxChild / 2 == root && (maxChild == 0 ==> root == 0)
    ensures NeverFails(cmp, multiset(arr[..])) ==> ok
    ensures ok && Believable(cmp, le, multiset(arr[..])) ==> IsGreatestChild(arr[..], le, bottom, root, maxChild)
  {
    hide Believable, NeverFails, AtMost;
    var root2 := root * 2;
    calls', ok := calls, true;
    if Believable(cmp, le, multiset(arr[..])) {
      OnlyChild(arr[..], cmp, le, bottom, root);
    }
    if root2 == bottom {
      maxChild := root2;
    } else {
      var first;
      first, calls' := Compare(arr, root2, root2 + 1, cmp, calls', le);
      if first == Failed { return false, 0, calls'; }
      maxChild := if first.ret > 0 then root2 else root2 + 1;
    }
  }

  lemma OnlyChild(s: seq<SQObject>, cmp: Comparison, le: Relation, bottom: int, root: nat)
    requires Believable(cmp, le, multiset(s)) && root * 2 <= bottom < |s|
    ensures AtMost(le, s[root * 2], s[root * 2])
    ensures root * 2 < bottom ==> AtMost(le, s[root * 2 + 1], s[root * 2 + 1])
  {
    assert s[root * 2] in s;
  }

  /** Swaps two of the first n elements. */
  method Swap(arr: array<SQObject>, i: nat, j: nat, ghost n: nat)
    requires i < n && j < n <= arr.Length
    modifies arr
    ensures arr[..] == Swapped(old(arr[..]), i, j) && Rearranged(arr[..], old(arr[..]), n)
    ensures multiset(arr[..]) == multiset(old(arr[..]))
  {
    ghost var s := arr[..];
    NothingIsMoved(s, n);
    SwapRearranges(s, s, i, j, n);
    arr[i], arr[j] := arr[j], arr[i];
    assert arr[..] == Swapped(s, i, j);
  }

  /** One round of the loop: root sinks to root' unless it is done. */
  method SinkOnce(arr: array<SQObject>, root: nat, bottom: nat, cmp: Comparison, calls: nat, ghost le: Relation,
                  ghost from: nat) returns (ok: bool, done: bool, root': nat, calls': nat)
    requires root * 2 <= bottom < arr.Length && from <= root
    modifies arr
    ensures Rearranged(arr[..], old(arr[..]), bottom + 1)
    ensures ok && !done ==> root < root' <= bottom
    ensures NeverFails(cmp, multiset(arr[..])) ==> ok
    ensures ok && Believable(cmp, le, multiset(arr[..])) && old(HeapBut(arr[..], le, from, bottom, root)) ==>
            if done then HeapFrom(arr[..], le, from, bottom) else HeapBut(arr[..], le, from, bottom, root')
  {
    hide Believable, NeverFails, HeapFrom, HeapBut, Rearranged, Swapped, AtMost, IsGreatestChild;
    ghost var s, heap := arr[..], Believable(cmp, le, multiset(arr[..])) && HeapBut(arr[..], le, from, bottom, root);
    NothingIsMoved(s, bottom + 1);
    ok, root', calls' := GreaterChild(arr, root, bottom, cmp, calls, le);
    done := false;
    if !ok { return; }
    var second;
    second, calls' := Compare(arr, root, root', cmp, calls', le);
    if second == Failed { return false, false, root', calls'; }
    if second.ret < 0 {
      if root == root' { return false, false, root', calls'; }
      if heap { SinkOneLevel(s, cmp, le, from, bottom, root, root'); }
      Swap(arr, root, root', bottom + 1);
    } else {
      if heap { SunkFarEnough(s, cmp, le, from, bottom, root, root'); }
      done := true;
    }
  }

  /**
   * Sinks the element at root into the heap below it. The result is false if a comparison failed or contradicted
   * itself.
   */
  method SiftDown(arr: array<SQObject>, root0: nat, bottom: int, cmp: Comparison, calls: nat, ghost le: Relation)
    returns (ok: bool, calls': nat)
    requires -1 <= bottom < arr.Length
    modifies arr
    ensures Rearranged(arr[..], old(arr[..]), bottom + 1)
    ensures NeverFails(cmp, multiset(arr[..])) ==> ok
    ensures ok && Believable(cmp, le, multiset(arr[..])) && old(HeapFrom(arr[..], le, root0 + 1, bottom)) ==>
            HeapFrom(arr[..], le, root0, bottom)
  {
    hide Believable, NeverFails, HeapFrom, HeapBut, Rearranged;
    ghost var s := arr[..];
    var root, done := root0, false;
    calls', ok := calls, true;
    NothingIsMoved(s, bottom + 1);
    if HeapFrom(s, le, root0 + 1, bottom) { OnlyRootIsLoose(s, le, root0, bottom); }
    ghost var heap := Believable(cmp, le, multiset(s)) && HeapFrom(s, le, root0 + 1, bottom);
    while root * 2 <= bottom && !done
      invariant ok && root0 <= root && Rearranged(arr[..], s, bottom + 1) && multiset(arr[..]) == multiset(s)
      invariant heap ==>
                if done then HeapFrom(arr[..], le, root0, bottom) else HeapBut(arr[..], le, root0, bottom, root)
      decreases bottom - root, if done then 0 else 1
    {
      ghost var t := arr[..];
      var next;
      ok, done, next, calls' := SinkOnce(arr, root, bottom, cmp, calls', le, root0);
      RearrangedTwice(arr[..], t, s, bottom + 1);
      if !ok { return; }
      if !done { root := next; }
    }
    if heap && !done { LeafIsInPlace(arr[..], le, root0, bottom, root); }
  }

  // ---------- the sort ----------

  /** The heap is below what has been sorted out already. */
  ghost predicate Sorting(s: seq<SQObject>, le: Relation, n: nat) {
    && n <= |s| && HeapFrom(s, le, 0, n - 1) && Sorted(s, le, n)
    && forall i, j :: 0 <= i < n <= j < |s| ==> AtMost(le, s[i], s[j])
  }

  /** The top of the heap goes to its end, and what is left is a heap but for the new top. */
  lemma TakeTop(s: seq<SQObject>, le: Relation, n: nat)
    requires IsPreorder(le, multiset(s)) && n > 0 && Sorting(s, le, n + 1)
    ensures var t := Swapped(s, 0, n);
            && HeapFrom(t, le, 1, n - 1) && Sorted(t, le, n)
            && forall i, j :: 0 <= i < n <= j < |t| ==> AtMost(le, t[i], t[j])
  {
    var t := Swapped(s, 0, n);
    forall i | 0 <= i <= n ensures AtMost(le, s[i], s[0]) {
      TopIsGreatest(s, le, n, i);
    }
    forall k | 1 <= k <= n - 1 && 1 <= k / 2 ensures AtMost(le, t[k], t[k / 2]) {
      assert AtMost(le, s[k], s[k / 2]);
    }
  }

  /** Rearranging the first n elements leaves them below the others. */
  lemma StillBelow(s: seq<SQObject>, t: seq<SQObject>, le: Relation, n: nat)
    requires 0 < n && Rearranged(t, s, n)
    requires forall i, j :: 0 <= i < n <= j < |s| ==> AtMost(le, s[i], s[j])
    ensures forall i, j :: 0 <= i < n <= j < |t| ==> AtMost(le, t[i], t[j])
    ensures Sorted(s, le, n) ==> Sorted(t, le, n)
  {
    forall j | n <= j < |t| ensures t[j] == s[j] {
      assert t[n..][j - n] == s[n..][j - n];
    }
    forall i, j | 0 <= i < n <= j < |t| ensures AtMost(le, t[i], t[j]) {
      assert t[i] in multiset(t[..n]);
      assert t[i] in multiset(s[..n]);
      var k :| 0 <= k < n && s[k] == t[i];
    }
  }

  /**
   * Any comparison leaves a permutation of the array, even one that fails or contradicts itself. One that does neither
   * with the elements of the array is enough for success. After a success the array is sorted by every preorder that
   * the comparison tells of, in particular any two of its elements are related.
   */
  method Sort(arr: array<SQObject>, cmp: Comparison, ghost le: Relation) returns (ok: bool)
    modifies arr
    ensures multiset(arr[..]) == multiset(old(arr[..]))
    ensures NeverFails(cmp, multiset(arr[..])) ==> ok
    ensures ok && Believable(cmp, le, multiset(arr[..])) ==> Sorted(arr[..], le, 0)
  {
    hide Believable, NeverFails;
    ghost var elems := multiset(arr[..]);
    var calls := 0;
    var size := arr.Length;
    var i := size / 2;
    while i >= 0
      invariant -1 <= i <= size / 2 && multiset(arr[..]) == multiset(old(arr[..]))
      invariant Believable(cmp, le, elems) ==> HeapFrom(arr[..], le, i + 1, size - 1)
    {
      ok, calls := SiftDown(arr, i, size - 1, cmp, calls, le);
      if !ok { return; }
      i := i - 1;
    }
    i := size - 1;
    while i >= 1
      invariant -1 <= i <= size - 1 && (i >= 0 || size == 0) && multiset(arr[..]) == multiset(old(arr[..]))
      invariant Believable(cmp, le, elems) ==> Sorting(arr[..], le, i + 1)
    {
      ok, calls := MoveTop(arr, i, cmp, calls, le);
      if !ok { return; }
      i := i - 1;
    }
    ok := true;
    if Believable(cmp, le, elems) { AllSorted(arr[..], le); }
  }

  method MoveTop(arr: array<SQObject>, i: nat, cmp: Comparison, calls: nat, ghost le: Relation)
    returns (ok: bool, calls': nat)
    requires 1 <= i < arr.Length
    modifies arr
    ensures multiset(arr[..]) == multiset(old(arr[..]))
    ensures NeverFails(cmp, multiset(arr[..])) ==> ok
    ensures ok && Believable(cmp, le, multiset(arr[..])) && old(Sorting(arr[..], le, i + 1)) ==> Sorting(arr[..], le, i)
  {
    hide HeapFrom, Sorted, Rearranged, Swapped, IsPreorder, Tells, NeverFails, AtMost;
    ghost var s := arr[..];
    Swap(arr, 0, i, arr.Length);
    ghost var t := arr[..];
    ok, calls' := SiftDown(arr, 0, i - 1, cmp, calls, le);
    SameElements(arr[..], t, i);
    if ok && Believable(cmp, le, multiset(s)) && Sorting(s, le, i + 1) {
      TakeTop(s, le, i);
      StillBelow(t, arr[..], le, i);
    }
  }

  lemma AllSorted(s: seq<SQObject>, le: Relation)
    requires Sorting(s, le, 1) || s == []
    ensures Sorted(s, le, 0)
  {
  }

  // ---------- a total preorder ----------

  /** On the elements, c is antisymmetric and transitive, and so compares any two of them. */
  ghost predicate IsTotalPreorder(c: Order, elems: Elements) {
    && (forall x, y :: x in elems && y in elems ==>
          (c(x, y) < 0 <==> c(y, x) > 0) && (c(x, y) == 0 <==> c(y, x) == 0))
    && (forall x, y, z :: x in elems && y in elems && z in elems && c(x, y) <= 0 && c(y, z) <= 0 ==> c(x, z) <= 0)
  }

  ghost predicate Answers(cmp: Comparison, c: Order, elems: Elements) {
    forall t, x, y :: x in elems && y in elems ==> cmp(t, x, y) == Compared(c(x, y))
  }

  /** Asked about the elements, the comparison always answers as the total preorder c. */
  ghost predicate Orders(cmp: Comparison, c: Order, elems: Elements) {
    IsTotalPreorder(c, elems) && Answers(cmp, c, elems)
  }

  function NotAbove(c: Order): Relation {
    (x, y) => c(x, y) <= 0
  }

  lemma OrdersIsBelievable(cmp: Comparison, c: Order, elems: Elements)
    requires Orders(cmp, c, elems)
    ensures Believable(cmp, NotAbove(c), elems) && NeverFails(cmp, elems)
  {
    forall t, x, y | x in elems && y in elems ensures cmp(t, x, y) == Compared(c(x, y)) && (x == y ==> c(x, y) == 0) {
    }
  }

  /** Under a comparison that answers as a total preorder on the elements the sort succeeds. */
  method SortByOrder(arr: array<SQObject>, cmp: Comparison, ghost c: Order) returns (ok: bool)
    requires Orders(cmp, c, multiset(arr[..]))
    modifies arr
    ensures multiset(arr[..]) == multiset(old(arr[..]))
    ensures ok && forall i, j :: 0 <= i < j < arr.Length ==> c(arr[i], arr[j]) <= 0
  {
    OrdersIsBelievable(cmp, c, multiset(arr[..]));
    ok := Sort(arr, cmp, NotAbove(c));
    forall i, j | 0 <= i < j < arr.Length ensures c(arr[i], arr[j]) <= 0 {
      assert AtMost(NotAbove(c), arr[..][i], arr[..][j]);
    }
  }

  // ---------- the comparison an array is sorted with by default ----------

  /** What sort does without a comparison function of the program. */
  function DefaultComparison(other: Comparison): Comparison {
    (t: nat, x, y) => ObjCmp(x, y, other(t, x, y))
  }

  lemma DefaultAnswers(other: Comparison, t: nat, x: SQObject, y: SQObject)
    ensures DefaultComparison(other)(t, x, y) == ObjCmp(x, y, other(t, x, y))
  {
  }

  ghost predicate AllPlain(elems: Elements) {
    forall x :: x in elems ==> IsPlain(x)
  }

  /** The elements that are not null are of one kind, integers and floats together being one. */
  ghost predicate OfOneKind(elems: Elements) {
    forall x, y :: x in elems && y in elems ==> Comparable(x, y)
  }

  /** Where floats, addresses or metamethods decide about elements there is an answer. */
  ghost predicate OtherAnswers(other: Comparison, elems: Elements) {
    forall t, x, y :: x in elems && y in elems && AsksOther(x, y) ==> other(t, x, y).Compared?
  }

  lemma DefaultNeverFailsIff(other: Comparison, elems: Elements)
    ensures NeverFails(DefaultComparison(other), elems) <==> OfOneKind(elems) && OtherAnswers(other, elems)
  {
    forall t, x, y ensures DefaultComparison(other)(t, x, y).Compared? <==>
                           Comparable(x, y) && (AsksOther(x, y) ==> other(t, x, y).Compared?)
    {
      DefaultAnswers(other, t, x, y);
      ComparesIff(x, y, other(t, x, y));
    }
    if NeverFails(DefaultComparison(other), elems) {
      forall t, x, y | x in elems && y in elems
        ensures Comparable(x, y) && (AsksOther(x, y) ==> other(t, x, y).Compared?)
      {
        Asked(DefaultComparison(other), elems, t, x, y);
      }
      forall x, y | x in elems && y in elems ensures Comparable(x, y) {
        Asked(DefaultComparison(other), elems, 0, x, y);
      }
    }
    forall t, x ensures DefaultComparison(other)(t, x, x) == Compared(0) { DefaultAnswers(other, t, x, x); }
  }

  /** Nulls come before what is of one kind, and kinds are not related. */
  function ByKind(): Relation {
    (x, y) => Comparable(x, y) && (y == Null ==> x == Null)
  }

  lemma ByKindIsBelievable(other: Comparison, elems: Elements)
    ensures Believable(DefaultComparison(other), ByKind(), elems)
  {
    forall t, x, y | x in elems && y in elems && DefaultComparison(other)(t, x, y).Compared?
      ensures DefaultComparison(other)(t, x, y).ret <= 0 ==> ByKind()(x, y)
      ensures DefaultComparison(other)(t, x, y).ret >= 0 ==> ByKind()(y, x)
    {
      DefaultAnswers(other, t, x, y);
      ComparesIff(x, y, other(t, x, y));
    }
  }

  /** The default order, which only relates what is of one kind. */
  function ByDefault(): Relation {
    (x, y) => Comparable(x, y) && DefaultOrder(x, y) <= 0
  }

  lemma DefaultIsTransitive(x: SQObject, y: SQObject, z: SQObject)
    requires IsPlain(x) && IsPlain(y) && IsPlain(z) && ByDefault()(x, y) && ByDefault()(y, z)
    ensures ByDefault()(x, z)
  {
    if x.String? && y.String? && z.String? {
      OrderOfStrings(x.chars, y.chars);
      OrderOfStrings(y.chars, z.chars);
      OrderOfStrings(x.chars, z.chars);
      CharsAreTransitive(x.chars, y.chars, z.chars);
    }
  }

  /** On plain values the default comparison answers as the default order, where it answers. */
  lemma DefaultOrderAnswers(other: Comparison, t: nat, x: SQObject, y: SQObject)
    requires IsPlain(x) && IsPlain(y) && Comparable(x, y)
    ensures DefaultComparison(other)(t, x, y) == Compared(DefaultOrder(x, y))
    ensures DefaultOrder(x, y) == -DefaultOrder(y, x)
  {
    DefaultAnswers(other, t, x, y);
    if x.String? && y.String? { CharsAreOrdered(x.chars, y.chars); }
  }

  lemma ByDefaultIsBelievable(other: Comparison, elems: Elements)
    requires AllPlain(elems)
    ensures Believable(DefaultComparison(other), ByDefault(), elems)
  {
    forall x, y, z | x in elems && y in elems && z in elems && ByDefault()(x, y) && ByDefault()(y, z)
      ensures ByDefault()(x, z)
    {
      DefaultIsTransitive(x, y, z);
    }
    forall t, x, y | x in elems && y in elems && DefaultComparison(other)(t, x, y).Compared?
      ensures DefaultComparison(other)(t, x, y).ret <= 0 ==> ByDefault()(x, y)
      ensures DefaultComparison(other)(t, x, y).ret >= 0 ==> ByDefault()(y, x)
    {
      DefaultAnswers(other, t, x, y);
      ComparesIff(x, y, other(t, x, y));
      DefaultOrderAnswers(other, t, x, y);
    }
  }

  lemma DefaultOrders(other: Comparison, elems: Elements)
    requires AllPlain(elems) && OfOneKind(elems)
    ensures Orders(DefaultComparison(other), DefaultOrder, elems)
  {
    forall t, x, y | x in elems && y in elems
      ensures DefaultComparison(other)(t, x, y) == Compared(DefaultOrder(x, y))
    {
      DefaultOrderAnswers(other, t, x, y);
    }
    forall x, y | x in elems && y in elems ensures DefaultOrder(x, y) == -DefaultOrder(y, x) {
      DefaultOrderAnswers(other, 0, x, y);
    }
    forall x, y, z | x in elems && y in elems && z in elems && DefaultOrder(x, y) <= 0 && DefaultOrder(y, z) <= 0
      ensures DefaultOrder(x, z) <= 0
    {
      DefaultIsTransitive(x, y, z);
    }
  }

  /** The default comparison is a total preorder on plain values exactly if those that are not null are of one kind. */
  lemma DefaultOrdersIff(other: Comparison, elems: Elements)
    requires AllPlain(elems)
    ensures (exists c: Order :: Orders(DefaultComparison(other), c, elems)) <==> OfOneKind(elems)
  {
    if OfOneKind(elems) { DefaultOrders(other, elems); }
    forall c: Order | Orders(DefaultComparison(other), c, elems) ensures OfOneKind(elems) {
      OrdersIsBelievable(DefaultComparison(other), c, elems);
      DefaultNeverFailsIff(other, elems);
    }
  }

  lemma SortedIsOfOneKind(s: seq<SQObject>, le: Relation)
    requires Sorted(s, le, 0) && forall x, y :: le(x, y) ==> Comparable(x, y)
    ensures OfOneKind(multiset(s))
  {
    forall x, y | x in multiset(s) && y in multiset(s) ensures Comparable(x, y) {
      assert x in s && y in s;
      var i :| 0 <= i < |s| && s[i] == x;
      var j :| 0 <= j < |s| && s[j] == y;
      assert i < j ==> AtMost(le, s[i], s[j]);
      assert j < i ==> AtMost(le, s[j], s[i]);
    }
  }

  /**
   * Sorting without a comparison function of the program. It can only succeed if the elements that are not null are of
   * one kind, whatever floats, addresses and metamethods answer. If they answer at all it does succeed then, and an
   * array without them is sorted.
   */
  method SortByDefault(arr: array<SQObject>, other: Comparison) returns (ok: bool)
    modifies arr
    ensures multiset(arr[..]) == multiset(old(arr[..]))
    ensures ok ==> OfOneKind(multiset(arr[..]))
    ensures OfOneKind(multiset(arr[..])) && OtherAnswers(other, multiset(arr[..])) ==> ok
    ensures AllPlain(multiset(arr[..])) ==> (ok <==> OfOneKind(multiset(arr[..])))
    ensures AllPlain(multiset(arr[..])) && ok ==>
            forall i, j :: 0 <= i < j < arr.Length ==> !Below(arr[j], arr[i])
  {
    hide Believable, NeverFails, OfOneKind;
    ghost var elems := multiset(arr[..]);
    ghost var le := if AllPlain(elems) then ByDefault() else ByKind();
    ByKindIsBelievable(other, elems);
    if AllPlain(elems) { ByDefaultIsBelievable(other, elems); }
    DefaultNeverFailsIff(other, elems);
    ok := Sort(arr, DefaultComparison(other), le);
    if ok {
      SortedIsOfOneKind(arr[..], le);
      if AllPlain(elems) { SortedIsNotBelow(arr[..]); }
    }
  }

  /** What is sorted by the default order is in the order one expects. */
  lemma SortedIsNotBelow(s: seq<SQObject>)
    requires AllPlain(multiset(s)) && Sorted(s, ByDefault(), 0)
    ensures forall i, j :: 0 <= i < j < |s| ==> !Below(s[j], s[i])
  {
    forall i, j | 0 <= i < j < |s| ensures !Below(s[j], s[i]) {
      assert AtMost(ByDefault(), s[i], s[j]) && s[i] in multiset(s) && s[j] in multiset(s);
      DefaultOrderIsBelow(s[i], s[j]);
    }
  }

  /** An instance: with an integer and a string among the elements there is no order, and the sort fails. */
  lemma DefaultComparisonFails(other: Comparison, elems: Elements)
    requires AllPlain(elems) && Integer(1) in elems && String("a") in elems
    ensures !OfOneKind(elems) && !exists c: Order :: Orders(DefaultComparison(other), c, elems)
  {
    assert !Comparable(Integer(1), String("a"));
    DefaultOrdersIff(other, elems);
  }
}
