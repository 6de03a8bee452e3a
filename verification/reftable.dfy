/**
 * The table of references that native code holds to Squirrel objects: buckets and a free list through one pool of
 * nodes.
 */
module ReferenceTable {
  import opened Objects
  import opened LinkedChains

  datatype RefNode = RefNode(obj: SQObject, refs: nat, next: int)

  /** The chain of the unused nodes. Bucket b is chain b. */
  const FREE := -1

  function Nexts(nodes: seq<RefNode>): seq<int> {
    seq(|nodes|, n requires 0 <= n < |nodes| => nodes[n].next)
  }

  function PlaceOf(hash: HashFunction, size: nat, node: RefNode): int
    requires size > 0
  {
    if node.obj == Null then FREE else HomeOf(hash, node.obj, size)
  }

  /**
   * Each node that holds an object is on the chain of the object's bucket, every other on the free list, and no
   * object is in two.
   */
  ghost predicate Stored(hash: HashFunction, nodes: seq<RefNode>, buckets: seq<int>, freelist: int, l: Chains,
                         clock: int) {
    && |buckets| == |nodes| > 0 && Linked(Nexts(nodes), l, clock)
    && Head(l, clock, FREE, freelist) && (forall b :: 0 <= b < |buckets| ==> Head(l, clock, b, buckets[b]))
    && (forall n :: 0 <= n < |nodes| ==>
        l.place[n] == PlaceOf(hash, |nodes|, nodes[n]) && (nodes[n].obj == Null ==> nodes[n].refs == 0))
    && Differ(nodes)
  }

  ghost predicate Holds(nodes: seq<RefNode>, n: int, o: SQObject) {
    0 <= n < |nodes| && nodes[n].obj == o
  }

  /** The nodes' counts are those of the multiset, and it has no other objects. */
  ghost predicate Counted(nodes: seq<RefNode>, counts: multiset<SQObject>) {
    && counts[Null] == 0
    && (forall n :: 0 <= n < |nodes| && nodes[n].obj != Null ==> counts[nodes[n].obj] == nodes[n].refs)
    && (forall o :: o in counts ==> exists n :: Holds(nodes, n, o))
  }

  ghost predicate NoneEmpty(nodes: seq<RefNode>) {
    forall n :: 0 <= n < |nodes| && nodes[n].obj != Null ==> nodes[n].refs > 0
  }

  function Used(nodes: seq<RefNode>): set<nat> {
    set n: nat | n < |nodes| && nodes[n].obj != Null
  }

  // ---------- one object is put on the free node f, in front of bucket b ----------

  function WithObject(nodes: seq<RefNode>, f: nat, o: SQObject, head: int): seq<RefNode>
    requires f < |nodes|
  {
    nodes[f := nodes[f].(obj := o, next := head)]
  }

  lemma AddKeepsStored(hash: HashFunction, nodes: seq<RefNode>, buckets: seq<int>, f: nat, l: Chains, clock: int,
                       o: SQObject)
    requires Stored(hash, nodes, buckets, f, l, clock) && o != Null && forall n :: 0 <= n < |nodes| ==>
             nodes[n].obj != o
    ensures f < |nodes| && nodes[f].obj == Null && nodes[f].refs == 0
    ensures var b := HomeOf(hash, o, |nodes|);
            Stored(hash, WithObject(nodes, f, o, buckets[b]), buckets[b := f], nodes[f].next, MovedTo(l, f, b, clock),
                   clock + 1)
  {
    var b := HomeOf(hash, o, |nodes|);
    var nodes', next := WithObject(nodes, f, o, buckets[b]), Nexts(nodes);
    assert On(l, FREE, f);
    MoveKeepsLinked(next, l, clock, -1, f, b, buckets[b]);
    assert Nexts(nodes') == Relinked(next, -1, f, buckets[b]);
    MovedHeads(next, l, clock, -1, f, b, b, f);
    var heads := buckets[b := f];
    forall c | 0 <= c < |heads| ensures Head(MovedTo(l, f, b, clock), clock + 1, c, heads[c]) {
      MovedHeads(next, l, clock, -1, f, b, c, buckets[c]);
    }
  }

  // ---------- the node r, after p in its bucket, is put back on the free list ----------

  function WithoutObject(nodes: seq<RefNode>, p: int, r: nat, freelist: int): seq<RefNode>
    requires r < |nodes| && p < |nodes|
  {
    (if p >= 0 then nodes[p := nodes[p].(next := nodes[r].next)] else nodes)[r := RefNode(Null, 0, freelist)]
  }

  lemma OneLess(nodes: seq<RefNode>, p: int, r: nat, freelist: int)
    requires r < |nodes| && -1 <= p < |nodes| && p != r && nodes[r].obj != Null
    ensures r in Used(nodes) && Used(WithoutObject(nodes, p, r, freelist)) == Used(nodes) - {r}
    ensures |Used(WithoutObject(nodes, p, r, freelist))| == |Used(nodes)| - 1
  {
  }

  function Unhooked(nodes: seq<RefNode>, buckets: seq<int>, p: int, b: nat, r: nat): seq<int>
    requires r < |nodes| && b < |buckets|
  {
    if p >= 0 then buckets else buckets[b := nodes[r].next]
  }

  lemma RemoveKeepsStored(hash: HashFunction, nodes: seq<RefNode>, buckets: seq<int>, freelist: int, l: Chains,
                          clock: int, p: int, r: nat)
    requires Stored(hash, nodes, buckets, freelist, l, clock) && r < |nodes| && nodes[r].obj != Null &&
             After(Nexts(nodes), l, clock, p, r)
    ensures var b := HomeOf(hash, nodes[r].obj, |nodes|);
            Stored(hash, WithoutObject(nodes, p, r, freelist), Unhooked(nodes, buckets, p, b, r), r,
                   MovedTo(l, r, FREE, clock), clock + 1)
  {
    var b := HomeOf(hash, nodes[r].obj, |nodes|);
    var nodes', next := WithoutObject(nodes, p, r, freelist), Nexts(nodes);
    hide After, Head, First;
    MoveKeepsLinked(next, l, clock, p, r, FREE, freelist);
    WithoutNexts(nodes, p, r, freelist);
    assert Linked(Nexts(nodes'), MovedTo(l, r, FREE, clock), clock + 1);
    hide Linked;
    forall c | 0 <= c < |buckets|
      ensures Head(MovedTo(l, r, FREE, clock), clock + 1, c, Unhooked(nodes, buckets, p, b, r)[c]) {
      UnhookedHead(next, l, clock, p, r, c, buckets[c]);
    }
    MovedHeads(next, l, clock, p, r, FREE, FREE, freelist);
  }

  lemma WithoutNexts(nodes: seq<RefNode>, p: int, r: nat, freelist: int)
    requires r < |nodes| && p < |nodes|
    ensures Nexts(WithoutObject(nodes, p, r, freelist)) == Relinked(Nexts(nodes), p, r, freelist)
  {
  }

  /** The head of bucket c, which was h, after r went back to the free list. */
  lemma UnhookedHead(next: seq<int>, l: Chains, clock: int, p: int, r: nat, c: int, h: int)
    requires Linked(next, l, clock) && r < |next| && l.place[r] >= 0 && c >= 0 && After(next, l, clock, p, r) &&
             Head(l, clock, c, h)
    ensures Head(MovedTo(l, r, FREE, clock), clock + 1, c, if p < 0 && c == l.place[r] then next[r] else h)
  {
    MovedHeads(next, l, clock, p, r, FREE, c, h);
    assert p >= 0 ==> First(l, l.place[p], l.height[p], next[p]);
    assert h == r ==> On(l, c, r);
  }

  /** Nothing but a free list, in order. */
  lemma FreeListIsStored(hash: HashFunction, nodes: seq<RefNode>, buckets: seq<int>)
    requires |buckets| == |nodes| > 0 && forall b :: 0 <= b < |buckets| ==> buckets[b] == -1
    requires forall n :: 0 <= n < |nodes| ==> nodes[n] == RefNode(Null, 0, if n < |nodes| - 1 then n + 1 else -1)
    ensures var size := |nodes|;
            Stored(hash, nodes, buckets, 0, Chains(seq(size, _ => FREE), seq(size, n => size - n)), size + 1)
  {
  }

  // ---------- how many nodes are used ----------

  function Below(n: nat): (s: set<nat>)
    ensures |s| == n && forall i: nat :: i in s <==> i < n
  {
    if n == 0 then {} else Below(n - 1) + {n - 1}
  }

  /** Unless every node is used the free list is not empty. */
  lemma FreeIfNotFull(hash: HashFunction, nodes: seq<RefNode>, buckets: seq<int>, freelist: int, l: Chains, clock: int)
    requires Stored(hash, nodes, buckets, freelist, l, clock)
    ensures |Used(nodes)| <= |nodes|
    ensures |Used(nodes)| == |nodes| <==> forall n :: 0 <= n < |nodes| ==> nodes[n].obj != Null
    ensures |Used(nodes)| < |nodes| ==> 0 <= freelist < |nodes|
  {
    var everything := Below(|nodes|);
    CardinalityAtMost(Used(nodes), everything);
    if freelist == -1 {
      forall n | 0 <= n < |nodes| ensures nodes[n].obj != Null {
        assert !On(l, FREE, n);
      }
      assert Used(nodes) == everything;
    }
    if forall n :: 0 <= n < |nodes| ==> nodes[n].obj != Null {
      assert Used(nodes) == everything;
    } else {
      var n :| 0 <= n < |nodes| && nodes[n].obj == Null;
      CardinalityAtMost(Used(nodes), everything - {n});
    }
  }

  lemma {:induction false} CardinalityAtMost(a: set<nat>, b: set<nat>)
    requires a <= b
    ensures |a| <= |b|
    decreases |a|
  {
    if a != {} {
      var x :| x in a;
      CardinalityAtMost(a - {x}, b - {x});
    }
  }

  datatype RefOp = Take(o: SQObject) | Drop(o: SQObject)

  function AfterOp(counts: multiset<SQObject>, op: RefOp): multiset<SQObject> {
    match op
    case Take(o) => counts + multiset{o}
    case Drop(o) => counts - multiset{o}
  }

  function CountsAfter(counts: multiset<SQObject>, list: seq<RefOp>): multiset<SQObject>
    decreases |list|
  {
    if list == [] then counts else CountsAfter(AfterOp(counts, list[0]), list[1..])
  }

  /** Which operations of a list drop the last reference to an object. */
  function LastDrops(counts: multiset<SQObject>, list: seq<RefOp>): seq<bool>
    decreases |list|
  {
    if list == [] then []
    else [list[0].Drop? && list[0].o !in AfterOp(counts, list[0])] + LastDrops(AfterOp(counts, list[0]), list[1..])
  }

  predicate Allowed(counts: multiset<SQObject>, op: RefOp) {
    match op
    case Take(o) => o != Null
    case Drop(o) => o in counts
  }

  /** Only references to objects are taken, and none is dropped that is not held. */
  predicate Balanced(counts: multiset<SQObject>, list: seq<RefOp>)
    decreases |list|
  {
    list == [] || (Allowed(counts, list[0]) && Balanced(AfterOp(counts, list[0]), list[1..]))
  }

  lemma {:induction false} EmptyRun(counts: multiset<SQObject>)
    ensures CountsAfter(counts, []) == counts && LastDrops(counts, []) == [] && Balanced(counts, [])
  {
  }

  lemma {:induction false} RunsOn(counts: multiset<SQObject>, list: seq<RefOp>, i: nat)
    requires i < |list| && Balanced(counts, list[i..])
    ensures Allowed(counts, list[i])
    ensures var more := AfterOp(counts, list[i]);
            && Balanced(more, list[i + 1..]) && CountsAfter(counts, list[i..]) == CountsAfter(more, list[i + 1..])
            && LastDrops(counts, list[i..]) == [list[i].Drop? && list[i].o !in more] + LastDrops(more, list[i + 1..])
  {
    assert list[i..][1..] == list[i + 1..];
  }

  class RefTable {
    const hash: HashFunction
    var numofslots: nat
    var slotused: nat
    var nodes: seq<RefNode>
    var freelist: int
    var buckets: seq<int>
    ghost var layout: Chains
    ghost var clock: int
    /** Each object as often as it is referred to. */
    ghost var counts: multiset<SQObject>

    ghost predicate Consistent()
      reads this
    {
      && Stored(hash, nodes, buckets, freelist, layout, clock)
      && numofslots == |nodes| && slotused == |Used(nodes)|
    }

    ghost predicate Valid()
      reads this
    {
      Consistent() && Counted(nodes, counts) && NoneEmpty(nodes)
    }

    constructor (hash: HashFunction)
      ensures Valid() && counts == multiset{} && this.hash == hash
    {
      this.hash := hash;
      numofslots, slotused, nodes, freelist, buckets, counts := 0, 0, [], -1, [], multiset{};
      new;
      AllocNodes(4);
    }

    /** A pool of unused nodes, all on the free list in order. */
    method AllocNodes(size: nat)
      requires size > 0
      modifies `numofslots, `slotused, `nodes, `freelist, `buckets, `layout, `clock
      ensures Consistent() && |nodes| == size && slotused == 0 && forall n :: 0 <= n < size ==> nodes[n].obj == Null
      ensures freelist == 0 && forall n :: 0 <= n < size ==> nodes[n].next == if n < size - 1 then n + 1 else -1
    {
      hide Head, Linked, Differ;
      nodes := seq(size, n => RefNode(Null, 0, if n < size - 1 then n + 1 else -1));
      buckets := seq(size, _ => -1);
      freelist := 0;
      slotused, numofslots := 0, size;
      layout, clock := Chains(seq(size, _ => FREE), seq(size, n => size - n)), size + 1;
      FreeListIsStored(hash, nodes, buckets);
      assert Used(nodes) == {};
    }

    /** The node of an object and the one before it in its bucket, -1 for none. */
    method Find(obj: SQObject) returns (ref: int, prev: int)
      requires Consistent() && obj != Null
      ensures -1 <= ref < |nodes| && (ref == -1 ==> forall n :: 0 <= n < |nodes| ==> nodes[n].obj != obj)
      ensures ref >= 0 ==>
              nodes[ref].obj == obj && -1 <= prev < |nodes| && After(Nexts(nodes), layout, clock, prev, ref)
    {
      hide Stored, Linked, Head, After;
      BucketIsChain(hash, nodes, buckets, freelist, layout, clock, obj);
      var mainpos := HomeOf(hash, obj, numofslots);
      WalkStarts(Nexts(nodes), layout, clock, mainpos, buckets[mainpos]);
      ref, prev := buckets[mainpos], -1;
      ghost var bound := clock;
      while ref != -1
        invariant Within(Nexts(nodes), layout, mainpos, bound, ref)
        invariant forall n :: On(layout, mainpos, n) && layout.height[n] >= bound ==> nodes[n].obj != obj
        invariant ref >= 0 ==> -1 <= prev < |nodes| && After(Nexts(nodes), layout, clock, prev, ref)
        decreases bound
      {
        if nodes[ref].obj == obj { return; }
        WalkGoesOn(Nexts(nodes), layout, clock, mainpos, ref);
        bound := layout.height[ref];
        prev := ref;
        ref := nodes[ref].next;
      }
      NotInBucket(hash, nodes, buckets, freelist, layout, clock, obj, bound);
    }

    method Add(mainpos: nat, obj: SQObject) returns (newnode: nat)
      requires Consistent() && obj != Null && mainpos == HomeOf(hash, obj, numofslots) && slotused < numofslots
      requires forall n :: 0 <= n < |nodes| ==> nodes[n].obj != obj
      modifies this
      ensures Consistent() && numofslots == old(numofslots) && slotused == old(slotused) + 1 && counts == old(counts)
      ensures newnode < |nodes| == |old(nodes)| && old(nodes)[newnode].obj == Null && nodes[newnode].obj == obj &&
              nodes[newnode].refs == 0
      ensures forall n :: 0 <= n < |nodes| && n != newnode ==> nodes[n] == old(nodes)[n]
    {
      hide Stored, MovedTo, Linked;
      FreeIfNotFull(hash, nodes, buckets, freelist, layout, clock);
      BucketIsChain(hash, nodes, buckets, freelist, layout, clock, obj);
      AddKeepsStored(hash, nodes, buckets, freelist, layout, clock, obj);
      var t := buckets[mainpos];
      newnode := freelist;
      var after := nodes[newnode].next;
      nodes := nodes[newnode := nodes[newnode].(obj := obj)];
      buckets := buckets[mainpos := newnode];
      freelist := after;
      nodes := nodes[newnode := nodes[newnode].(next := t)];
      assert nodes == WithObject(old(nodes), newnode, obj, t);
      layout, clock := MovedTo(layout, newnode, mainpos, clock), clock + 1;
      slotused := slotused + 1;
      assert Used(nodes) == Used(old(nodes)) + {newnode};
    }

    /** Moves every object with its count into a pool of another size. */
    method Resize(size: nat)
      requires Consistent() && slotused == numofslots < size && Counted(nodes, counts)
      modifies this
      ensures Consistent() && numofslots == size && slotused == old(numofslots) && counts == old(counts) &&
              Counted(nodes, counts)
      ensures old(NoneEmpty(nodes)) ==> NoneEmpty(nodes)
      ensures forall k :: 0 <= k < |nodes| && nodes[k].obj != Null ==> exists n :: Holds(old(nodes), n, nodes[k].obj)
    {
      hide Stored, Counted, Copied, NoneEmpty, Once;
      var oldnodes, oldnumofslots := nodes, numofslots;
      FreeIfNotFull(hash, nodes, buckets, freelist, layout, clock);
      DistinctObjects(hash, nodes, buckets, freelist, layout, clock);
      AllocNodes(size);
      NothingCopied(oldnodes, nodes);
      var n := 0;
      while n < oldnumofslots
        invariant 0 <= n <= oldnumofslots && Consistent() && numofslots == size && slotused == n &&
                  counts == old(counts)
        invariant Copied(oldnodes, n, nodes)
      {
        var t := oldnodes[n];
        NotYetCopied(oldnodes, n, nodes);
        ghost var before := nodes;
        var nn := Add(HomeOf(hash, t.obj, numofslots), t.obj);
        ghost var added := nodes;
        nodes := nodes[nn := nodes[nn].(refs := t.refs)];
        CountingKeepsStored(hash, added, buckets, freelist, layout, clock, nn, t.refs);
        assert Used(nodes) == Used(added);
        CopiedNext(oldnodes, n, before, nodes, nn);
        n := n + 1;
      }
      CopiedAll(oldnodes, nodes, counts);
    }

    /** The node of an object, a new one with count 0 if there is none. */
    method GetOrAdd(obj: SQObject) returns (ref: nat)
      requires Valid() && obj != Null
      modifies this
      ensures Consistent() && counts == old(counts) && ref < |nodes| && nodes[ref].obj == obj
      ensures Counted(nodes, counts) && forall n :: 0 <= n < |nodes| && n != ref && nodes[n].obj != Null ==>
              nodes[n].refs > 0
    {
      hide Stored, Counted;
      var found, prev := Find(obj);
      if found != -1 {
        ref := found;
        return;
      }
      FreeIfNotFull(hash, nodes, buckets, freelist, layout, clock);
      if numofslots == slotused {
        StillPositive(hash, nodes, buckets, freelist, layout, clock);
        Resize(numofslots * 2);
      }
      ghost var before := nodes;
      ref := Add(HomeOf(hash, obj, numofslots), obj);
      CountedMore(before, nodes, ref, counts);
    }

    method AddRef(obj: SQObject)
      requires Valid() && obj != Null
      modifies this
      ensures Valid() && counts == old(counts) + multiset{obj}
    {
      hide Stored, Differ, Counted;
      var ref := GetOrAdd(obj);
      ghost var before := nodes;
      nodes := nodes[ref := nodes[ref].(refs := nodes[ref].refs + 1)];
      counts := counts + multiset{obj};
      CountingKeepsStored(hash, before, buckets, freelist, layout, clock, ref, before[ref].refs + 1);
      ObjectsOnce(hash, before, buckets, freelist, layout, clock);
      assert Used(nodes) == Used(before);
      CountedUp(before, nodes, ref, old(counts));
    }

    /** Drops one reference. The result is whether it was the last one. */
    method Release(obj: SQObject) returns (last: bool)
      requires Valid() && obj in counts
      modifies this
      ensures Valid() && counts == old(counts) - multiset{obj} && (last <==> obj !in counts)
    {
      hide Stored, Counted;
      Present(nodes, obj, counts);
      var ref, prev := Find(obj);
      Decrement(ref);
      last := nodes[ref].refs == 0;
      DropCount(old(nodes), ref, prev);
      counts := counts - multiset{obj};
    }

    /** The second half of Release: before are the nodes when ref still had all its references. */
    method DropCount(ghost before: seq<RefNode>, ref: nat, prev: int)
      requires Consistent() && Counted(before, counts) && NoneEmpty(before) && ref < |before| &&
               before[ref].obj in counts && before[ref].refs > 0
      requires nodes == before[ref := before[ref].(refs := before[ref].refs - 1)]
      requires -1 <= prev < |nodes| && After(Nexts(nodes), layout, clock, prev, ref)
      modifies this
      ensures Consistent() && counts == old(counts) && NoneEmpty(nodes) &&
              Counted(nodes, counts - multiset{before[ref].obj})
      ensures before[ref].refs == 1 <==> before[ref].obj !in counts - multiset{before[ref].obj}
    {
      hide Stored, Counted, WithoutObject;
      ObjectsOnce(hash, nodes, buckets, freelist, layout, clock);
      DifferBefore(before, nodes, ref);
      AtLeastOne(before, ref, counts);
      if nodes[ref].refs == 0 {
        CountedDown(before, nodes, prev, ref, freelist, counts);
        FreeNode(prev, ref);
      } else {
        CountedLess(before, nodes, ref, counts);
      }
    }

    method Decrement(ref: nat)
      requires Consistent() && ref < |nodes| && nodes[ref].obj != Null && nodes[ref].refs > 0
      modifies `nodes
      ensures Consistent() && nodes == old(nodes)[ref := old(nodes)[ref].(refs := old(nodes)[ref].refs - 1)]
      ensures Nexts(nodes) == Nexts(old(nodes))
    {
      hide Stored;
      CountingKeepsStored(hash, nodes, buckets, freelist, layout, clock, ref, nodes[ref].refs - 1);
      nodes := nodes[ref := nodes[ref].(refs := nodes[ref].refs - 1)];
      assert Used(nodes) == Used(old(nodes));
      assert Nexts(nodes) == Nexts(old(nodes));
    }

    /** Any run of references taken and dropped again, none dropped that was not taken. */
    method Run(list: seq<RefOp>) returns (lasts: seq<bool>)
      requires Valid() && Balanced(counts, list)
      modifies this
      ensures Valid() && counts == CountsAfter(old(counts), list) && lasts == LastDrops(old(counts), list)
    {
      hide Stored, Counted, Balanced, CountsAfter, LastDrops;
      lasts := [];
      var i := 0;
      assert list[0..] == list;
      EmptyRun(old(counts));
      while i < |list|
        invariant 0 <= i <= |list| && Valid() && Balanced(counts, list[i..])
        invariant CountsAfter(counts, list[i..]) == CountsAfter(old(counts), list)
        invariant lasts + LastDrops(counts, list[i..]) == LastDrops(old(counts), list)
      {
        RunsOn(counts, list, i);
        var last := Do(list[i]);
        lasts := lasts + [last];
        i := i + 1;
      }
      assert list[i..] == [];
      EmptyRun(counts);
    }

    method Do(op: RefOp) returns (last: bool)
      requires Valid() && Allowed(counts, op)
      modifies this
      ensures Valid() && counts == AfterOp(old(counts), op) && (last <==> op.Drop? && op.o !in counts)
    {
      last := false;
      match op {
        case Take(o) => AddRef(o);
        case Drop(o) => last := Release(o);
      }
    }

    method FreeNode(prev: int, ref: nat)
      requires Consistent() && ref < |nodes| && -1 <= prev < |nodes| && nodes[ref].obj != Null && nodes[ref].refs == 0
      requires After(Nexts(nodes), layout, clock, prev, ref)
      modifies this
      ensures Consistent() && nodes == WithoutObject(old(nodes), prev, ref, old(freelist)) && counts == old(counts)
    {
      RemoveKeepsStored(hash, nodes, buckets, freelist, layout, clock, prev, ref);
      Unhook(prev, ref);
    }

    method Unhook(prev: int, ref: nat)
      requires ref < |nodes| && -1 <= prev < |nodes| && prev != ref && nodes[ref].obj != Null && nodes[ref].refs == 0
      requires |buckets| == numofslots == |nodes| && slotused == |Used(nodes)|
      modifies this
      ensures nodes == WithoutObject(old(nodes), prev, ref, old(freelist)) && freelist == ref && counts == old(counts)
      ensures buckets == Unhooked(old(nodes), old(buckets), prev, HomeOf(hash, old(nodes)[ref].obj, |old(nodes)|), ref)
      ensures layout == old(MovedLayout(ref)) && clock == old(clock) + 1
      ensures numofslots == old(numofslots) && slotused == |Used(nodes)|
    {
      hide Used;
      OneLess(nodes, prev, ref, freelist);
      var mainpos := HomeOf(hash, nodes[ref].obj, numofslots);
      if prev != -1 {
        nodes := nodes[prev := nodes[prev].(next := nodes[ref].next)];
      } else {
        buckets := buckets[mainpos := nodes[ref].next];
      }
      nodes := nodes[ref := nodes[ref].(next := freelist)];
      freelist := ref;
      slotused := slotused - 1;
      nodes := nodes[ref := nodes[ref].(obj := Null)];
      layout, clock := MovedLayout(ref), clock + 1;
      assert nodes == WithoutObject(old(nodes), prev, ref, old(freelist));
    }

    ghost function MovedLayout(ref: nat): Chains
      reads this
    {
      if ref < |layout.place| == |layout.height| then MovedTo(layout, ref, FREE, clock) else layout
    }
  }

  // ---------- counting ----------

  lemma CountingKeepsStored(hash: HashFunction, nodes: seq<RefNode>, buckets: seq<int>, freelist: int, l: Chains,
                            clock: int, n: nat, refs: nat)
    requires Stored(hash, nodes, buckets, freelist, l, clock) && n < |nodes| && nodes[n].obj != Null
    ensures Stored(hash, nodes[n := nodes[n].(refs := refs)], buckets, freelist, l, clock)
  {
    assert Nexts(nodes[n := nodes[n].(refs := refs)]) == Nexts(nodes);
  }

  lemma ObjectsOnce(hash: HashFunction, nodes: seq<RefNode>, buckets: seq<int>, freelist: int, l: Chains, clock: int)
    requires Stored(hash, nodes, buckets, freelist, l, clock)
    ensures Differ(nodes)
  {
  }

  /** No object is in two nodes. */
  ghost predicate Differ(nodes: seq<RefNode>) {
    forall n, m :: 0 <= n < m < |nodes| && nodes[n].obj != Null ==> nodes[n].obj != nodes[m].obj
  }

  lemma DistinctObjects(hash: HashFunction, nodes: seq<RefNode>, buckets: seq<int>, freelist: int, l: Chains,
                        clock: int)
    requires Stored(hash, nodes, buckets, freelist, l, clock) && forall n :: 0 <= n < |nodes| ==> nodes[n].obj != Null
    ensures Once(nodes)
  {
  }

  lemma StillPositive(hash: HashFunction, nodes: seq<RefNode>, buckets: seq<int>, freelist: int, l: Chains, clock: int)
    requires Stored(hash, nodes, buckets, freelist, l, clock)
    ensures |nodes| < |nodes| * 2
  {
  }

  ghost predicate Once(nodes: seq<RefNode>) {
    && (forall n :: 0 <= n < |nodes| ==> nodes[n].obj != Null)
    && forall n, m :: 0 <= n < m < |nodes| ==> nodes[n].obj != nodes[m].obj
  }

  ghost predicate HasCopy(nodes: seq<RefNode>, r: RefNode) {
    exists n :: 0 <= n < |nodes| && nodes[n].obj == r.obj && nodes[n].refs == r.refs
  }

  /** The nodes in use are copies of the first n old ones. */
  ghost predicate Copied(from: seq<RefNode>, n: nat, to: seq<RefNode>)
    requires n <= |from|
  {
    && Once(from)
    && (forall m :: 0 <= m < n ==> HasCopy(to, from[m]))
    && (forall k :: 0 <= k < |to| && to[k].obj != Null ==> HasCopy(from[..n], to[k]))
  }

  lemma NothingCopied(from: seq<RefNode>, to: seq<RefNode>)
    requires Once(from) && forall k :: 0 <= k < |to| ==> to[k].obj == Null
    ensures Copied(from, 0, to)
  {
  }

  lemma NotYetCopied(from: seq<RefNode>, n: nat, to: seq<RefNode>)
    requires n < |from| && Copied(from, n, to)
    ensures from[n].obj != Null && forall k :: 0 <= k < |to| ==> to[k].obj != from[n].obj
  {
  }

  lemma CopiedNext(from: seq<RefNode>, n: nat, before: seq<RefNode>, after: seq<RefNode>, nn: nat)
    requires n < |from| && Copied(from, n, before) && nn < |after| == |before| && before[nn].obj == Null
    requires after[nn].obj == from[n].obj && after[nn].refs == from[n].refs
    requires forall k :: 0 <= k < |after| && k != nn ==> after[k] == before[k]
    ensures Copied(from, n + 1, after)
  {
    forall m | 0 <= m < n + 1 ensures HasCopy(after, from[m]) {
      if m < n {
        var k :| 0 <= k < |before| && before[k].obj == from[m].obj && before[k].refs == from[m].refs;
        assert k != nn && after[k] == before[k];
      }
    }
    forall k | 0 <= k < |after| && after[k].obj != Null ensures HasCopy(from[..n + 1], after[k]) {
      if k == nn {
        assert from[..n + 1][n] == from[n];
      } else {
        var m :| 0 <= m < n && from[..n][m].obj == before[k].obj && from[..n][m].refs == before[k].refs;
        assert from[..n + 1][m] == from[..n][m];
      }
    }
  }

  lemma CopiedAll(from: seq<RefNode>, to: seq<RefNode>, counts: multiset<SQObject>)
    requires Copied(from, |from|, to) && Counted(from, counts)
    ensures Counted(to, counts) && (NoneEmpty(from) ==> NoneEmpty(to))
    ensures forall k :: 0 <= k < |to| && to[k].obj != Null ==> exists n :: Holds(from, n, to[k].obj)
  {
    assert from[..|from|] == from;
    forall o | o in counts ensures exists n :: Holds(to, n, o) {
      var m :| Holds(from, m, o);
      assert HasCopy(to, from[m]);
      var k :| 0 <= k < |to| && to[k].obj == from[m].obj && to[k].refs == from[m].refs;
      assert Holds(to, k, o);
    }
    forall k | 0 <= k < |to| && to[k].obj != Null
      ensures counts[to[k].obj] == to[k].refs && (NoneEmpty(from) ==> to[k].refs > 0) &&
              exists n :: Holds(from, n, to[k].obj)
    {
      var m :| 0 <= m < |from| && from[m].obj == to[k].obj && from[m].refs == to[k].refs;
      assert Holds(from, m, to[k].obj);
    }
  }

  lemma CountedMore(before: seq<RefNode>, after: seq<RefNode>, n: nat, counts: multiset<SQObject>)
    requires Counted(before, counts) && n < |after| == |before| && before[n].obj == Null && after[n].refs == 0
    requires forall k :: 0 <= k < |after| && k != n ==> after[k] == before[k]
    requires after[n].obj != Null && forall k :: 0 <= k < |before| ==> before[k].obj != after[n].obj
    ensures Counted(after, counts)
  {
    forall o | o in counts ensures exists k :: Holds(after, k, o) {
      var k :| Holds(before, k, o);
      assert k != n ==> Holds(after, k, o);
    }
    assert after[n].obj in counts ==> exists k :: Holds(before, k, after[n].obj);
  }

  lemma CountedUp(before: seq<RefNode>, after: seq<RefNode>, n: nat, counts: multiset<SQObject>)
    requires Counted(before, counts) && n < |before| && before[n].obj != Null &&
             after == before[n := before[n].(refs := before[n].refs + 1)]
    requires Differ(before)
    ensures Counted(after, counts + multiset{before[n].obj})
  {
    var more := counts + multiset{before[n].obj};
    forall o | o in more ensures exists k :: Holds(after, k, o) {
      if o in counts {
        var k :| Holds(before, k, o);
        assert Holds(after, k, o);
      } else {
        assert Holds(after, n, o);
      }
    }
  }

  lemma CountedLess(before: seq<RefNode>, after: seq<RefNode>, n: nat, counts: multiset<SQObject>)
    requires Counted(before, counts) && n < |before| && before[n].obj != Null && before[n].refs > 0
    requires after == before[n := before[n].(refs := before[n].refs - 1)]
    requires Differ(before) && NoneEmpty(before)
    ensures Counted(after, counts - multiset{before[n].obj})
    ensures after[n].refs > 0 ==> before[n].obj in counts - multiset{before[n].obj} && NoneEmpty(after)
  {
    forall o | o in counts ensures exists k :: Holds(after, k, o) {
      var k :| Holds(before, k, o);
      assert Holds(after, k, o);
    }
  }

  lemma Present(nodes: seq<RefNode>, o: SQObject, counts: multiset<SQObject>)
    requires Counted(nodes, counts) && o in counts
    ensures o != Null && exists k :: Holds(nodes, k, o)
    ensures forall k :: Holds(nodes, k, o) ==> nodes[k].refs > 0
  {
  }

  lemma DifferBefore(before: seq<RefNode>, after: seq<RefNode>, n: nat)
    requires n < |before| && before[n].refs > 0 && after == before[n := before[n].(refs := before[n].refs - 1)] &&
             Differ(after)
    ensures Differ(before)
  {
    forall j, k | 0 <= j < k < |before| && before[j].obj != Null ensures before[j].obj != before[k].obj {
      assert after[j].obj == before[j].obj && after[k].obj == before[k].obj;
    }
  }

  lemma AtLeastOne(nodes: seq<RefNode>, n: int, counts: multiset<SQObject>)
    requires Counted(nodes, counts) && 0 <= n < |nodes| && nodes[n].obj in counts
    ensures nodes[n].obj != Null && nodes[n].refs == counts[nodes[n].obj]
  {
  }

  lemma CountedDown(before: seq<RefNode>, less: seq<RefNode>, p: int, r: nat, freelist: int, counts: multiset<SQObject>)
    requires Counted(before, counts) && Differ(before) && r < |before| && p < |before| && before[r].obj != Null &&
             before[r].refs == 1
    requires less == before[r := before[r].(refs := 0)] && p != r && NoneEmpty(before)
    ensures Counted(WithoutObject(less, p, r, freelist), counts - multiset{before[r].obj})
    ensures before[r].obj !in counts - multiset{before[r].obj} && NoneEmpty(WithoutObject(less, p, r, freelist))
  {
    var after, rest := WithoutObject(less, p, r, freelist), counts - multiset{before[r].obj};
    assert forall k :: 0 <= k < |before| && k != r ==> after[k].obj == before[k].obj && after[k].refs == before[k].refs;
    forall o | o in rest ensures exists k :: Holds(after, k, o) {
      var k :| Holds(before, k, o);
      assert k != r && Holds(after, k, o);
    }
  }

  // ---------- walking a bucket ----------

  /** The bucket of an object is a chain. */
  lemma BucketIsChain(hash: HashFunction, nodes: seq<RefNode>, buckets: seq<int>, freelist: int, l: Chains, clock: int,
                      o: SQObject)
    requires Stored(hash, nodes, buckets, freelist, l, clock) && o != Null
    ensures |buckets| == |nodes| == |l.place| == |l.height| && Linked(Nexts(nodes), l, clock)
    ensures var b := HomeOf(hash, o, |nodes|); Head(l, clock, b, buckets[b])
  {
  }

  lemma NotInBucket(hash: HashFunction, nodes: seq<RefNode>, buckets: seq<int>, freelist: int, l: Chains, clock: int,
                    o: SQObject, bound: int)
    requires Stored(hash, nodes, buckets, freelist, l, clock) && o != Null
    requires First(l, HomeOf(hash, o, |nodes|), bound, -1)
    requires forall n :: On(l, HomeOf(hash, o, |nodes|), n) && l.height[n] >= bound ==> nodes[n].obj != o
    ensures forall n :: 0 <= n < |nodes| ==> nodes[n].obj != o
  {
    forall n | 0 <= n < |nodes| ensures nodes[n].obj != o {
      assert nodes[n].obj == o ==> On(l, HomeOf(hash, o, |nodes|), n);
    }
  }
}
