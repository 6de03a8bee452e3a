/**
 * Doubly linked chains of collectable objects. Objects are named by their place in the object table, -1 is no object.
 */
module GcChain {
  datatype Kind = FuncProto | Outer | Array | OtherKind

  /** An object: its mark, its links, and the objects that marking it goes on to mark. */
  datatype SQCollectable = SQCollectable(marked: bool, next: int, prev: int, kind: Kind, refs: seq<nat>)

  function At(s: seq<nat>, k: int): int {
    if 0 <= k < |s| then s[k] else -1
  }

  predicate NoDuplicates(s: seq<nat>) {
    forall i, j :: 0 <= i < j < |s| ==> s[i] != s[j]
  }

  predicate LinkedAt(objects: seq<SQCollectable>, s: seq<nat>, k: nat)
    requires k < |s|
  {
    s[k] < |objects| && objects[s[k]].next == At(s, k + 1) && objects[s[k]].prev == At(s, k - 1)
  }

  /** The chain that starts at head is s, each object once and linked both ways. */
  ghost predicate Chained(objects: seq<SQCollectable>, head: int, s: seq<nat>) {
    && head == At(s, 0) && NoDuplicates(s)
    && (forall k :: 0 <= k < |s| ==> s[k] < |objects|)
    && (forall k {:trigger LinkedAt(objects, s, k)} :: 0 <= k < |s| ==> LinkedAt(objects, s, k))
  }

  function Added(objects: seq<SQCollectable>, head: int, c: nat): seq<SQCollectable>
    requires c < |objects| && -1 <= head < |objects|
  {
    var o := objects[c := objects[c].(prev := -1, next := head)];
    if head == -1 then o else o[head := o[head].(prev := c)]
  }

  function Removed(objects: seq<SQCollectable>, c: nat): seq<SQCollectable>
    requires c < |objects| && -1 <= objects[c].next < |objects| && -1 <= objects[c].prev < |objects|
  {
    var p, n := objects[c].prev, objects[c].next;
    var o := if p == -1 then objects else objects[p := objects[p].(next := n)];
    var q := if n == -1 then o else o[n := o[n].(prev := p)];
    q[c := q[c].(next := -1, prev := -1)]
  }

  /** Relinking changes no mark, no kind and no reference. */
  ghost predicate SameObjects(o: seq<SQCollectable>, q: seq<SQCollectable>) {
    |o| == |q| && forall i :: 0 <= i < |o| ==> q[i] == o[i].(next := q[i].next, prev := q[i].prev)
  }

  lemma AddLinks(objects: seq<SQCollectable>, head: int, s: seq<nat>, c: nat)
    requires Chained(objects, head, s) && c < |objects| && c !in s
    ensures -1 <= head < |objects|
    ensures Chained(Added(objects, head, c), c, [c] + s) && SameObjects(objects, Added(objects, head, c))
  {
    if s != [] { assert LinkedAt(objects, s, 0); }
    var o, t := Added(objects, head, c), [c] + s;
    forall k | 0 <= k < |t| ensures t[k] < |o| && LinkedAt(o, t, k) {
      if k > 0 { assert LinkedAt(objects, s, k - 1); }
    }
  }

  /** Another chain is not disturbed. */
  lemma AddLeaves(objects: seq<SQCollectable>, head: int, s: seq<nat>, c: nat, h: int, t: seq<nat>)
    requires Chained(objects, head, s) && c < |objects| && -1 <= head < |objects|
    requires Chained(objects, h, t) && c !in t && forall x :: x in t ==> x !in s
    ensures Chained(Added(objects, head, c), h, t)
  {
    forall k | 0 <= k < |t| ensures LinkedAt(Added(objects, head, c), t, k) {
      assert LinkedAt(objects, t, k);
      assert t[k] in t && t[k] != c;
      if head != -1 { assert head in s; }
    }
  }

  lemma RemoveLinks(objects: seq<SQCollectable>, head: int, a: seq<nat>, c: nat, b: seq<nat>)
    requires Chained(objects, head, a + [c] + b)
    ensures c < |objects| && -1 <= objects[c].next < |objects| && -1 <= objects[c].prev < |objects|
    ensures objects[c].prev == At(a, |a| - 1) && objects[c].next == At(b, 0)
    ensures Chained(Removed(objects, c), if a == [] then objects[c].next else head, a + b) &&
            SameObjects(objects, Removed(objects, c))
  {
    var s, t := a + [c] + b, a + b;
    assert s[|a|] == c && LinkedAt(objects, s, |a|);
    if a != [] { assert s[|a| - 1] == a[|a| - 1]; }
    if b != [] { assert s[|a| + 1] == b[0]; }
    StillNoDuplicates(a, c, b);
    forall k | 0 <= k < |t| ensures t[k] < |objects| && LinkedAt(Removed(objects, c), t, k) {
      RemovedAt(objects, head, a, c, b, k);
    }
  }

  lemma StillNoDuplicates(a: seq<nat>, c: nat, b: seq<nat>)
    requires NoDuplicates(a + [c] + b)
    ensures NoDuplicates(a + b)
  {
    var s, t := a + [c] + b, a + b;
    forall i, j | 0 <= i < j < |t| ensures t[i] != t[j] {
      assert t[i] == s[if i < |a| then i else i + 1] && t[j] == s[if j < |a| then j else j + 1];
    }
  }

  lemma RemovedAt(objects: seq<SQCollectable>, head: int, a: seq<nat>, c: nat, b: seq<nat>, k: nat)
    requires Chained(objects, head, a + [c] + b) && k < |a + b|
    requires c < |objects| && -1 <= objects[c].next < |objects| && -1 <= objects[c].prev < |objects|
    requires objects[c].prev == At(a, |a| - 1) && objects[c].next == At(b, 0)
    ensures LinkedAt(Removed(objects, c), a + b, k)
  {
    var s, t := a + [c] + b, a + b;
    var j := if k < |a| then k else k + 1;
    assert LinkedAt(objects, s, j) && s[|a|] == c;
    assert s[j] == t[k];
    if a != [] { assert s[|a| - 1] == a[|a| - 1]; }
    if b != [] { assert s[|a| + 1] == b[0]; }
  }

  lemma RemoveLeaves(objects: seq<SQCollectable>, c: nat, s: seq<nat>, h: int, t: seq<nat>)
    requires c < |objects| && -1 <= objects[c].next < |objects| && -1 <= objects[c].prev < |objects|
    requires c in s && (objects[c].prev == -1 || objects[c].prev in s) &&
             (objects[c].next == -1 || objects[c].next in s)
    requires Chained(objects, h, t) && forall x :: x in t ==> x !in s
    ensures Chained(Removed(objects, c), h, t)
  {
    forall k | 0 <= k < |t| ensures LinkedAt(Removed(objects, c), t, k) {
      assert LinkedAt(objects, t, k);
      assert t[k] in t;
    }
  }

  lemma SplitAt(s: seq<nat>, c: nat) returns (a: seq<nat>, b: seq<nat>)
    requires c in s && NoDuplicates(s)
    ensures s == a + [c] + b
    ensures forall i :: i in a + b <==> i in s && i != c
  {
    var k :| 0 <= k < |s| && s[k] == c;
    a, b := s[..k], s[k + 1..];
    forall i ensures i in a + b <==> i in s && i != c {
      if i in s && i != c {
        var j :| 0 <= j < |s| && s[j] == i;
        if j < k { assert a[j] == i; } else { assert b[j - k - 1] == i; }
      }
    }
  }

  /** The last object of chain s linked to chain t. */
  function Joined(objects: seq<SQCollectable>, last: nat, head: int): seq<SQCollectable>
    requires last < |objects| && -1 <= head < |objects|
  {
    var o := objects[last := objects[last].(next := head)];
    if head == -1 then o else o[head := o[head].(prev := last)]
  }

  lemma JoinLinks(objects: seq<SQCollectable>, h: int, s: seq<nat>, head: int, t: seq<nat>)
    requires Chained(objects, h, s) && Chained(objects, head, t) && s != [] && forall x :: x in t ==> x !in s
    ensures -1 <= head < |objects|
    ensures Chained(Joined(objects, s[|s| - 1], head), h, s + t) &&
            SameObjects(objects, Joined(objects, s[|s| - 1], head))
  {
    if t != [] { assert LinkedAt(objects, t, 0); }
    var u := s + t;
    forall k | 0 <= k < |u| ensures u[k] < |objects| && LinkedAt(Joined(objects, s[|s| - 1], head), u, k) {
      JoinedAt(objects, h, s, head, t, k);
    }
    JoinedOnce(s, t);
  }

  lemma JoinedOnce(s: seq<nat>, t: seq<nat>)
    requires NoDuplicates(s) && NoDuplicates(t) && forall x :: x in t ==> x !in s
    ensures NoDuplicates(s + t)
  {
    forall i, j | 0 <= i < j < |s + t| ensures (s + t)[i] != (s + t)[j] {
      if i < |s| <= j { assert t[j - |s|] in t && s[i] in s; }
    }
  }

  lemma JoinedAt(objects: seq<SQCollectable>, h: int, s: seq<nat>, head: int, t: seq<nat>, k: nat)
    requires Chained(objects, h, s) && Chained(objects, head, t) && s != [] && (forall x :: x in t ==> x !in s) &&
             k < |s + t|
    requires -1 <= head < |objects|
    ensures LinkedAt(Joined(objects, s[|s| - 1], head), s + t, k)
  {
    if k < |s| {
      assert LinkedAt(objects, s, k) && s[k] in s;
      if t != [] { assert t[0] in t; }
    } else {
      assert LinkedAt(objects, t, k - |s|) && t[k - |s|] in t;
      assert s[|s| - 1] in s;
    }
  }

  /** A chain only depends on the links of its objects. */
  lemma ChainedFrame(objects: seq<SQCollectable>, more: seq<SQCollectable>, h: int, s: seq<nat>)
    requires Chained(objects, h, s) && |objects| <= |more|
    requires forall i :: 0 <= i < |objects| ==> more[i].next == objects[i].next && more[i].prev == objects[i].prev
    ensures Chained(more, h, s)
  {
    forall k | 0 <= k < |s| ensures LinkedAt(more, s, k) { assert LinkedAt(objects, s, k); }
  }
}

/** The mark phase of the garbage collector. */
module GcMark {
  import opened GcChain

  function Refs(objects: seq<SQCollectable>): seq<seq<nat>> {
    seq(|objects|, i requires 0 <= i < |objects| => objects[i].refs)
  }

  /** Each object of the path refers to the next. */
  ghost predicate Path(refs: seq<seq<nat>>, p: seq<nat>) {
    && |p| > 0 && (forall k :: 0 <= k < |p| ==> p[k] < |refs|)
    && forall k :: 0 <= k < |p| - 1 ==> p[k + 1] in refs[p[k]]
  }

  ghost predicate Reaches(refs: seq<seq<nat>>, from: nat, to: nat) {
    exists p :: Path(refs, p) && p[0] == from && p[|p| - 1] == to
  }

  ghost predicate Reachable(refs: seq<seq<nat>>, roots: seq<nat>, to: nat) {
    exists r :: r in roots && Reaches(refs, r, to)
  }

  lemma ReachesItself(refs: seq<seq<nat>>, c: nat)
    requires c < |refs|
    ensures Reaches(refs, c, c)
  {
    assert Path(refs, [c]);
  }

  lemma ReachesThrough(refs: seq<seq<nat>>, c: nat, r: nat, to: nat)
    requires c < |refs| && r in refs[c] && Reaches(refs, r, to)
    ensures Reaches(refs, c, to)
  {
    var p :| Path(refs, p) && p[0] == r && p[|p| - 1] == to;
    assert Path(refs, [c] + p);
  }

  /** A set of objects that refers to nothing outside it holds everything its members reach. */
  lemma {:induction false} ClosedHoldsPath(refs: seq<seq<nat>>, p: seq<nat>, marked: set<nat>)
    requires Path(refs, p) && p[0] in marked
    requires forall i: nat, r :: i in marked && i < |refs| && r in refs[i] ==> r in marked
    ensures p[|p| - 1] in marked
    decreases |p|
  {
    if |p| > 1 {
      assert p[1] in refs[p[0]];
      ClosedHoldsPath(refs, p[1..], marked);
    }
  }

  ghost predicate InRange(objects: seq<SQCollectable>) {
    forall i, r :: 0 <= i < |objects| && r in objects[i].refs ==> r < |objects|
  }

  ghost function MarkedSet(objects: seq<SQCollectable>): set<nat> {
    set i: nat | i < |objects| && objects[i].marked
  }

  ghost function UnmarkedSet(objects: seq<SQCollectable>): set<nat> {
    set i: nat | i < |objects| && !objects[i].marked
  }

  /** The objects stay what they are, and marks are only set. */
  ghost predicate MoreMarked(o: seq<SQCollectable>, q: seq<SQCollectable>) {
    |o| == |q| && forall i :: 0 <= i < |o| ==>
      q[i].kind == o[i].kind && q[i].refs == o[i].refs && (o[i].marked ==> q[i].marked)
  }

  ghost predicate Newly(o: seq<SQCollectable>, q: seq<SQCollectable>, i: nat) {
    i < |o| && i < |q| && q[i].marked && !o[i].marked
  }

  predicate AllMarked(objects: seq<SQCollectable>, refs: seq<nat>) {
    forall r :: r in refs ==> r < |objects| && objects[r].marked
  }

  /** Everything newly marked is reached from c, and all it refers to is marked. */
  ghost predicate MarkedFrom(o: seq<SQCollectable>, q: seq<SQCollectable>, c: nat) {
    && (forall i :: Newly(o, q, i) ==> Reaches(Refs(o), c, i))
    && (forall i: nat :: Newly(o, q, i) ==> AllMarked(q, o[i].refs))
  }

  /** The newly marked objects have moved from one chain to the other. */
  ghost predicate Moved(o: seq<SQCollectable>, q: seq<SQCollectable>, gc: seq<nat>, gc': seq<nat>, ts: seq<nat>,
                        ts': seq<nat>) {
    forall i: nat :: (i in gc' <==> i in gc && !Newly(o, q, i)) && (i in ts' <==> i in ts || Newly(o, q, i))
  }

  /**
   * Both chains are in order and share no object. Unmarked objects are on the first, the second has only marked ones.
   */
  ghost predicate TwoChains(objects: seq<SQCollectable>, head: int, gc: seq<nat>, chain: int, ts: seq<nat>) {
    && InRange(objects) && Chained(objects, head, gc) && Chained(objects, chain, ts)
    && (forall i :: i in ts ==> i !in gc)
    && (forall i: nat :: i < |objects| && !objects[i].marked ==> i in gc)
    && (forall i :: i in ts ==> i < |objects| && objects[i].marked)
  }

  class SQSharedState {
    var objects: seq<SQCollectable>
    var gcChain: int

    constructor (objects: seq<SQCollectable>, head: int)
      ensures this.objects == objects && gcChain == head
    {
      this.objects, gcChain := objects, head;
    }

    method AddToChain(head: int, c: nat) returns (head': int)
      requires c < |objects| && -1 <= head < |objects|
      modifies `objects
      ensures objects == Added(old(objects), head, c) && head' == c
    {
      objects := objects[c := objects[c].(prev := -1)];
      objects := objects[c := objects[c].(next := head)];
      if head != -1 {
        objects := objects[head := objects[head].(prev := c)];
      }
      head' := c;
    }

    method RemoveFromChain(head: int, c: nat) returns (head': int)
      requires c < |objects| && -1 <= objects[c].next < |objects| && -1 <= objects[c].prev < |objects|
      requires objects[c].next != c
      modifies `objects
      ensures objects == Removed(old(objects), c) && head' == if old(objects)[c].prev == -1 then old(objects)[c].next
              else head
    {
      var p, n := objects[c].prev, objects[c].next;
      head' := head;
      if p != -1 {
        objects := objects[p := objects[p].(next := n)];
      } else {
        head' := n;
      }
      if n != -1 {
        objects := objects[n := objects[n].(prev := p)];
      }
      objects := objects[c := objects[c].(next := -1)];
      objects := objects[c := objects[c].(prev := -1)];
    }

    /** Moves c, which has just been marked with all it refers to, from the collector's chain to the other. */
    method MoveMarked(c: nat, ghost gc: seq<nat>, chain: int, ghost ts: seq<nat>)
      returns (chain': int, ghost gc': seq<nat>, ghost ts': seq<nat>)
      requires TwoChains(objects, gcChain, gc, chain, ts) && c in gc && objects[c].marked
      modifies this
      ensures TwoChains(objects, gcChain, gc', chain', ts') && SameObjects(old(objects), objects)
      ensures forall i :: i in gc' <==> i in gc && i != c
      ensures ts' == [c] + ts
    {
      ghost var a, b := SplitAt(gc, c);
      RemoveLinks(objects, gcChain, a, c, b);
      RemoveLeaves(objects, c, gc, chain, ts);
      gcChain := RemoveFromChain(gcChain, c);
      AddLinks(objects, chain, ts, c);
      AddLeaves(objects, chain, ts, c, gcChain, a + b);
      chain' := AddToChain(chain, c);
      gc', ts' := a + b, [c] + ts;
    }

    /** Marks c and everything that can only now be reached through it, and moves all of it to the other chain. */
    method Mark(c: nat, ghost gc: seq<nat>, chain: int, ghost ts: seq<nat>)
      returns (chain': int, ghost gc': seq<nat>, ghost ts': seq<nat>)
      requires TwoChains(objects, gcChain, gc, chain, ts) && c < |objects|
      modifies this
      ensures TwoChains(objects, gcChain, gc', chain', ts') && MoreMarked(old(objects), objects) && objects[c].marked
      ensures MarkedFrom(old(objects), objects, c) && Moved(old(objects), objects, gc, gc', ts, ts')
      decreases UnmarkedSet(objects), 0
    {
      chain', gc', ts' := chain, gc, ts;
      if !objects[c].marked {
        objects := objects[c := objects[c].(marked := true)];
        ghost var grey := objects;
        MarkIsLocal(old(objects), c, gcChain, gc, chain, ts);
        assert c in UnmarkedSet(old(objects)) && c !in UnmarkedSet(grey);
        chain', gc', ts' := MarkRefs(c, gc', chain', ts');
        ghost var done, gcDone, tsDone := objects, gc', ts';
        chain', gc', ts' := MoveMarked(c, gc', chain', ts');
        MarkIsDone(old(objects), grey, done, objects, c);
        MoveIsDone(old(objects), grey, done, objects, c, gc, gcDone, gc', ts, tsDone, ts');
      }
    }

    /** The body of marking c. */
    method MarkRefs(c: nat, ghost gc: seq<nat>, chain: int, ghost ts: seq<nat>)
      returns (chain': int, ghost gc': seq<nat>, ghost ts': seq<nat>)
      requires TwoChains(objects, gcChain, gc, chain, ts) && c < |objects| && objects[c].marked && c in gc
      modifies this
      ensures TwoChains(objects, gcChain, gc', chain', ts') && MoreMarked(old(objects), objects) && c in gc'
      ensures AllMarked(objects, objects[c].refs)
      ensures MarkedFrom(old(objects), objects, c) && Moved(old(objects), objects, gc, gc', ts, ts')
      decreases UnmarkedSet(objects), 1
    {
      chain', gc', ts' := chain, gc, ts;
      var refs := objects[c].refs;
      var k := 0;
      while k < |refs|
        invariant 0 <= k <= |refs| && TwoChains(objects, gcChain, gc', chain', ts') && MoreMarked(old(objects), objects)
        invariant c in gc' && forall j :: 0 <= j < k ==> refs[j] < |objects| && objects[refs[j]].marked
        invariant MarkedFrom(old(objects), objects, c) && Moved(old(objects), objects, gc, gc', ts, ts')
      {
        assert refs[k] in objects[c].refs;
        ghost var before, gcBefore, tsBefore := objects, gc', ts';
        FewerUnmarked(old(objects), objects);
        chain', gc', ts' := Mark(refs[k], gc', chain', ts');
        MarkedTogether(old(objects), before, objects, c, refs[k]);
        MovedTogether(old(objects), before, objects, gc, gcBefore, gc', ts, tsBefore, ts');
        k := k + 1;
      }
    }

    /**
     * Marks from every root. The other chain gets exactly the objects that can be reached, the collector's chain
     * keeps the rest.
     */
    method RunMark(roots: seq<nat>, ghost gc: seq<nat>) returns (tchain: int, ghost gc': seq<nat>, ghost ts: seq<nat>)
      requires TwoChains(objects, gcChain, gc, -1, []) && Unmarked(objects) && forall r :: r in roots ==> r < |objects|
      modifies this
      ensures TwoChains(objects, gcChain, gc', tchain, ts) && MoreMarked(old(objects), objects)
      ensures forall i: nat :: i in ts <==> i < |objects| && Reachable(Refs(old(objects)), roots, i)
      ensures forall i: nat :: i in gc' <==> i in gc && !Reachable(Refs(old(objects)), roots, i)
      ensures forall i: nat :: i < |objects| && objects[i].marked ==> i in ts
    {
      tchain, gc', ts := -1, gc, [];
      var k := 0;
      while k < |roots|
        invariant 0 <= k <= |roots| && TwoChains(objects, gcChain, gc', tchain, ts) && MoreMarked(old(objects), objects)
        invariant MarkedFromRoots(old(objects), objects, roots, k) && Moved(old(objects), objects, gc, gc', [], ts)
      {
        ghost var before, gcBefore, tsBefore := objects, gc', ts;
        assert roots[k] in roots;
        tchain, gc', ts := Mark(roots[k], gc', tchain, ts);
        RootMarked(old(objects), before, objects, roots, k);
        MovedTogether(old(objects), before, objects, gc, gcBefore, gc', [], tsBefore, ts);
        k := k + 1;
      }
      forall i: nat ensures Newly(old(objects), objects, i) <==>
        i < |objects| && Reachable(Refs(old(objects)), roots, i) {
        MarkedIsReachable(old(objects), objects, roots, i);
      }
    }

    /** SQArray::Create: a new array, at the front of the collector's chain. */
    method CreateArray(ghost gc: seq<nat>) returns (ret: nat)
      requires Chained(objects, gcChain, gc)
      modifies this
      ensures ret == |old(objects)| && |objects| == ret + 1 && objects[ret].kind == Array && objects[ret].refs == [] &&
              !objects[ret].marked
      ensures Chained(objects, gcChain, [ret] + gc)
      ensures SameObjects(old(objects), objects[..ret])
      ensures forall h, s :: Chained(old(objects), h, s) && (forall x :: x in gc ==> x !in s) ==> Chained(objects, h, s)
    {
      ret := |objects|;
      ghost var o := objects;
      objects := objects + [SQCollectable(false, -1, -1, Array, [])];
      ghost var p := objects;
      ChainedFrame(o, p, gcChain, gc);
      AddLinks(p, gcChain, gc, ret);
      forall h, s | Chained(o, h, s) && (forall x :: x in gc ==> x !in s)
        ensures Chained(Added(p, gcChain, ret), h, s) {
        ChainedFrame(o, p, h, s);
        AddLeaves(p, gcChain, gc, ret, h, s);
      }
      gcChain := AddToChain(gcChain, ret);
    }

    /** Lists the objects of a chain in the array ret, but for the kinds no program can see. */
    method ListChain(head: int, ghost s: seq<nat>, ret: nat) returns (n: nat, rlast: int)
      requires Chained(objects, head, s) && ret < |objects| && ret !in s && objects[ret].refs == []
      modifies `objects
      ensures n == |s| && rlast == At(s, |s| - 1)
      ensures objects == Listing(old(objects), ret, Visible(old(objects), s))
    {
      hide Visible;
      n, rlast := 0, -1;
      var t := head;
      ghost var was := objects;
      VisibleNone(was);
      assert s[..0] == [] && objects == Listing(was, ret, []);
      while t != -1
        invariant 0 <= n <= |s| && t == At(s, n) && rlast == At(s, n - 1)
        invariant objects == Listing(was, ret, Visible(was, s[..n]))
        decreases |s| - n
      {
        assert LinkedAt(was, s, n) && s[n] in s;
        rlast := t;
        VisibleNext(was, s, n);
        ghost var seen := Visible(was, s[..n]);
        assert objects[t] == was[t] && objects[ret].refs == seen && seen + [] == seen;
        var kind := objects[t].kind;
        if kind != FuncProto && kind != Outer {
          objects := objects[ret := objects[ret].(refs := objects[ret].refs + [t])];
          assert objects == Listing(was, ret, seen + [t]);
        }
        t := objects[t].next;
        n := n + 1;
      }
      assert s[..n] == s;
    }

    method UnMarkChain(ghost s: seq<nat>)
      requires Chained(objects, gcChain, s)
      modifies `objects
      ensures |objects| == |old(objects)|
      ensures forall i: nat :: i < |objects| ==> objects[i] == old(objects)[i].(marked := old(objects)[i].marked &&
          i !in s)
    {
      var t := gcChain;
      ghost var k := 0;
      while t != -1
        invariant 0 <= k <= |s| && t == At(s, k) && |objects| == |old(objects)|
        invariant forall i: nat :: i < |objects| ==> objects[i] == old(objects)[i].(marked := old(objects)[i].marked &&
            i !in s[..k])
        decreases |s| - k
      {
        assert LinkedAt(old(objects), s, k);
        assert s[..k + 1] == s[..k] + [s[k]];
        objects := objects[t := objects[t].(marked := false)];
        t := objects[t].next;
        k := k + 1;
      }
      assert s[..k] == s;
    }

    /**
     * Puts every object back on one chain, in front of it the unreachable ones, and lists these in a new array. The
     * result is their number. Without any, there is no array.
     */
    method ResurrectUnreachable(roots: seq<nat>, ghost gc: seq<nat>)
      returns (n: nat, ret: int, ghost lost: seq<nat>, ghost chain: seq<nat>)
      requires TwoChains(objects, gcChain, gc, -1, []) && Unmarked(objects) && forall r :: r in roots ==> r < |objects|
      modifies this
      ensures Chained(objects, gcChain, chain) && Unmarked(objects) && n == |lost|
      ensures forall i: nat :: i in lost <==> i in gc && !Reachable(Refs(old(objects)), roots, i)
      ensures forall i: nat :: i in chain <==> i in gc || i == ret
      ensures lost <= chain && (lost == [] ==> ret == -1 && |objects| == |old(objects)|)
      ensures lost != [] ==>
              ret == |old(objects)| && |objects| == ret + 1 && objects[ret].kind == Array &&
              objects[ret].refs == Visible(old(objects), lost)
      ensures forall i :: 0 <= i < |old(objects)| ==>
              objects[i].kind == old(objects)[i].kind && objects[i].refs == old(objects)[i].refs
    {
      hide Reachable, Visible;
      ghost var o := objects;
      var tchain;
      ghost var ts;
      tchain, lost, ts := RunMark(roots, gc);
      var resurrected := gcChain;
      gcChain := tchain;
      ret, n := -1, 0;
      chain := ts;
      if resurrected != -1 {
        VisibleFrame(o, objects, lost);
        n, ret, chain := Relink(resurrected, lost, ts);
      }
      ghost var marked := objects;
      UnMarkChain(chain);
      ChainedFrame(marked, objects, gcChain, chain);
    }

    method Relink(resurrected: int, ghost lost: seq<nat>, ghost ts: seq<nat>)
      returns (n: nat, ret: nat, ghost chain: seq<nat>)
      requires Chained(objects, resurrected, lost) && Chained(objects, gcChain, ts) && lost != [] &&
               forall x :: x in ts ==> x !in lost
      modifies this
      ensures n == |lost| && ret == |old(objects)| && chain == lost + [ret] + ts && Chained(objects, gcChain, chain)
      ensures |objects| == ret + 1 && objects[ret].kind == Array && objects[ret].refs == Visible(old(objects), lost) &&
              !objects[ret].marked
      ensures SameObjects(old(objects), objects[..ret])
    {
      ghost var o := objects;
      ret := CreateArray(ts);
      ghost var p := objects;
      var rlast;
      n, rlast := ListChain(resurrected, lost, ret);
      ghost var q := objects;
      VisibleFrame(o, p, lost);
      ChainedFrame(p, q, resurrected, lost);
      ChainedFrame(p, q, gcChain, [ret] + ts);
      JoinLinks(q, resurrected, lost, gcChain, [ret] + ts);
      objects := objects[rlast := objects[rlast].(next := gcChain)];
      if gcChain != -1 {
        objects := objects[gcChain := objects[gcChain].(prev := rlast)];
      }
      gcChain := resurrected;
      chain := lost + [ret] + ts;
      assert lost + ([ret] + ts) == chain;
    }
  }

  predicate IsVisible(objects: seq<SQCollectable>, c: nat) {
    c < |objects| && objects[c].kind != FuncProto && objects[c].kind != Outer
  }

  /** The objects of a chain that a program can see, in order. */
  function Visible(objects: seq<SQCollectable>, s: seq<nat>): (v: seq<nat>)
    ensures forall i :: i in v <==> i in s && i < |objects| && objects[i].kind != FuncProto && objects[i].kind != Outer
  {
    if s == [] then []
    else
      var last := s[|s| - 1];
      assert s == s[..|s| - 1] + [last];
      Visible(objects, s[..|s| - 1]) + (if IsVisible(objects, last) then [last] else [])
  }

  /** The objects with the array ret holding v. */
  function Listing(objects: seq<SQCollectable>, ret: nat, v: seq<nat>): seq<SQCollectable>
    requires ret < |objects|
  {
    objects[ret := objects[ret].(refs := v)]
  }

  lemma {:induction false} VisibleNone(objects: seq<SQCollectable>)
    ensures Visible(objects, []) == []
  {
  }

  lemma {:induction false} VisibleNext(objects: seq<SQCollectable>, s: seq<nat>, n: nat)
    requires n < |s|
    ensures Visible(objects, s[..n + 1]) == Visible(objects, s[..n]) + (if IsVisible(objects, s[n]) then [s[n]] else [])
  {
    assert s[..n + 1][..n] == s[..n];
  }

  lemma {:induction false} VisibleFrame(o: seq<SQCollectable>, q: seq<SQCollectable>, s: seq<nat>)
    requires forall k :: 0 <= k < |s| ==> s[k] < |o|
    requires |o| <= |q| && forall i :: 0 <= i < |o| ==> q[i].kind == o[i].kind
    ensures Visible(q, s) == Visible(o, s)
  {
    if s != [] { VisibleFrame(o, q, s[..|s| - 1]); }
  }

  ghost predicate Unmarked(objects: seq<SQCollectable>) {
    forall i :: 0 <= i < |objects| ==> !objects[i].marked
  }

  ghost predicate MarkedFromRoots(o: seq<SQCollectable>, q: seq<SQCollectable>, roots: seq<nat>, k: nat)
    requires k <= |roots|
  {
    && AllMarked(q, roots[..k])
    && (forall i: nat :: Newly(o, q, i) ==> Reachable(Refs(o), roots, i) && AllMarked(q, o[i].refs))
  }

  lemma RootMarked(o: seq<SQCollectable>, q: seq<SQCollectable>, s: seq<SQCollectable>, roots: seq<nat>, k: nat)
    requires k < |roots| && MoreMarked(o, q) && MarkedFromRoots(o, q, roots, k)
    requires MoreMarked(q, s) && MarkedFrom(q, s, roots[k]) && roots[k] < |s| && s[roots[k]].marked
    ensures MarkedFromRoots(o, s, roots, k + 1) && MoreMarked(o, s)
  {
    assert Refs(o) == Refs(q) && roots[..k + 1] == roots[..k] + [roots[k]];
    forall i: nat | Newly(o, s, i) ensures Reachable(Refs(o), roots, i) && AllMarked(s, o[i].refs) {
      assert q[i].refs == o[i].refs;
      if Newly(o, q, i) {
        assert AllMarked(q, o[i].refs);
      } else {
        assert Newly(q, s, i) && roots[k] in roots;
      }
    }
  }

  lemma MarkedIsReachable(o: seq<SQCollectable>, q: seq<SQCollectable>, roots: seq<nat>, i: nat)
    requires Unmarked(o) && MoreMarked(o, q) && MarkedFromRoots(o, q, roots, |roots|)
    ensures Newly(o, q, i) <==> i < |o| && Reachable(Refs(o), roots, i)
  {
    if Reachable(Refs(o), roots, i) {
      var r :| r in roots && Reaches(Refs(o), r, i);
      var p :| Path(Refs(o), p) && p[0] == r && p[|p| - 1] == i;
      assert roots[..|roots|] == roots && r in MarkedSet(q);
      forall j: nat, x | j in MarkedSet(q) && j < |Refs(o)| && x in Refs(o)[j] ensures x in MarkedSet(q) {
        assert Newly(o, q, j) && AllMarked(q, o[j].refs);
      }
      ClosedHoldsPath(Refs(o), p, MarkedSet(q));
      assert i in MarkedSet(q);
    }
  }

  lemma FewerUnmarked(o: seq<SQCollectable>, q: seq<SQCollectable>)
    requires MoreMarked(o, q)
    ensures UnmarkedSet(q) <= UnmarkedSet(o)
  {
  }

  lemma MarkIsLocal(o: seq<SQCollectable>, c: nat, head: int, gc: seq<nat>, chain: int, ts: seq<nat>)
    requires TwoChains(o, head, gc, chain, ts) && c < |o| && !o[c].marked
    ensures var q := o[c := o[c].(marked := true)];
            TwoChains(q, head, gc, chain, ts) && MoreMarked(o, q) && UnmarkedSet(q) < UnmarkedSet(o) && c in gc
  {
    var q := o[c := o[c].(marked := true)];
    forall k | 0 <= k < |gc| ensures LinkedAt(q, gc, k) { assert LinkedAt(o, gc, k); }
    forall k | 0 <= k < |ts| ensures LinkedAt(q, ts, k) { assert LinkedAt(o, ts, k); }
    assert c in UnmarkedSet(o) && c !in UnmarkedSet(q);
    FewerUnmarked(o, q);
  }

  lemma MarkedTogether(o: seq<SQCollectable>, q: seq<SQCollectable>, s: seq<SQCollectable>, c: nat, r: nat)
    requires MoreMarked(o, q) && MoreMarked(q, s) && MarkedFrom(o, q, c) && MarkedFrom(q, s, r) && c < |o| &&
             r in o[c].refs
    ensures MoreMarked(o, s) && MarkedFrom(o, s, c)
  {
    assert Refs(o) == Refs(q);
    forall i | Newly(o, s, i) ensures Reaches(Refs(o), c, i) {
      if !Newly(o, q, i) {
        assert Newly(q, s, i);
        ReachesThrough(Refs(o), c, r, i);
      }
    }
    forall i: nat | Newly(o, s, i) ensures AllMarked(s, o[i].refs) {
      assert q[i].refs == o[i].refs;
      if Newly(o, q, i) { assert AllMarked(q, o[i].refs); } else { assert Newly(q, s, i); }
    }
  }

  lemma MovedTogether(o: seq<SQCollectable>, q: seq<SQCollectable>, s: seq<SQCollectable>, gc: seq<nat>, gc1: seq<nat>,
                      gc2: seq<nat>, ts: seq<nat>, ts1: seq<nat>, ts2: seq<nat>)
    requires MoreMarked(o, q) && MoreMarked(q, s) && Moved(o, q, gc, gc1, ts, ts1) && Moved(q, s, gc1, gc2, ts1, ts2)
    ensures Moved(o, s, gc, gc2, ts, ts2)
  {
    assert forall i :: Newly(o, s, i) <==> Newly(o, q, i) || Newly(q, s, i);
  }

  lemma MarkIsDone(o: seq<SQCollectable>, grey: seq<SQCollectable>, done: seq<SQCollectable>, end: seq<SQCollectable>,
                   c: nat)
    requires c < |o| && !o[c].marked && grey == o[c := o[c].(marked := true)] && MoreMarked(grey, done) &&
             MarkedFrom(grey, done, c)
    requires SameObjects(done, end) && AllMarked(done, o[c].refs)
    ensures MoreMarked(o, end) && end[c].marked && MarkedFrom(o, end, c)
  {
    assert Refs(o) == Refs(grey);
    ReachesItself(Refs(o), c);
    forall i | Newly(o, end, i) ensures i == c || Newly(grey, done, i) {
    }
    forall i: nat | Newly(o, end, i) ensures AllMarked(end, o[i].refs) {
      assert grey[i].refs == o[i].refs;
      if i != c { assert Newly(grey, done, i) && AllMarked(done, grey[i].refs); }
    }
  }

  lemma MoveIsDone(o: seq<SQCollectable>, grey: seq<SQCollectable>, done: seq<SQCollectable>, end: seq<SQCollectable>,
                   c: nat, gc: seq<nat>, gc1: seq<nat>, gc2: seq<nat>, ts: seq<nat>, ts1: seq<nat>, ts2: seq<nat>)
    requires c < |o| && !o[c].marked && grey == o[c := o[c].(marked := true)] && MoreMarked(grey, done)
    requires SameObjects(done, end) && Moved(grey, done, gc, gc1, ts, ts1)
    requires (forall i :: i in gc2 <==> i in gc1 && i != c) && ts2 == [c] + ts1
    ensures Moved(o, end, gc, gc2, ts, ts2)
  {
    assert forall i :: Newly(o, end, i) <==> i == c || Newly(grey, done, i);
  }
}
