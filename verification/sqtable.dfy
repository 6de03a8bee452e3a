/** The Squirrel hash table: a chained scatter table with a descending free pointer, updated in place. */
module HashTable {
  import opened Objects
  import opened ScatterTable

  const MINPOWER2: nat := 4

  function HomeFn(hash: HashFunction, size: nat): Home
    requires size > 0
  {
    k => HomeOf(hash, k, size)
  }

  lemma SubsetSize<T>(a: set<T>, b: set<T>)
    requires a <= b
    ensures |a| <= |b|
  {
    assert b == a + (b - a);
  }

  lemma {:induction false} SetBelow(s: set<nat>, n: nat)
    requires forall x :: x in s ==> x < n
    ensures |s| <= n
    ensures |s| == n <==> forall x: nat :: x < n ==> x in s
  {
    if n > 0 {
      SetBelow(s - {n - 1}, n - 1);
      if |s| == n { assert n - 1 in s; }
    }
  }

  lemma {:induction false} SameSize(slot: map<SQObject, nat>, used: set<nat>)
    requires forall k :: k in slot ==> slot[k] in used
    requires forall j, k :: j in slot && k in slot && slot[j] == slot[k] ==> j == k
    requires forall i :: i in used ==> exists k :: k in slot && slot[k] == i
    ensures |slot| == |used|
  {
    if |slot| == 0 {
      assert forall i :: i !in used;
    } else {
      var k :| k in slot;
      var rest := slot - {k};
      assert slot.Keys == rest.Keys + {k};
      SameSize(rest, used - {slot[k]});
    }
  }

  ghost function LiveNodes(nodes: seq<HashNode>): set<nat> {
    set i: nat | i < |nodes| && IsLive(nodes, i)
  }

  lemma OneNodeForEachKey(nodes: seq<HashNode>, slot: map<SQObject, nat>)
    requires SlotsOk(nodes, slot)
    ensures |slot| == |LiveNodes(nodes)|
  {
    forall i | i in LiveNodes(nodes) ensures exists k :: k in slot && slot[k] == i {
      assert nodes[i].key in slot;
    }
    SameSize(slot, LiveNodes(nodes));
  }

  /** There are at most as many keys as nodes, and as many only when every node is live. */
  lemma KeysFitNodes(nodes: seq<HashNode>, slot: map<SQObject, nat>)
    requires SlotsOk(nodes, slot)
    ensures |slot| <= |nodes|
    ensures |slot| == |nodes| <==> forall i: nat :: i < |nodes| ==> IsLive(nodes, i)
  {
    var used := LiveNodes(nodes);
    OneNodeForEachKey(nodes, slot);
    SetBelow(used, |nodes|);
    assert forall i: nat :: i < |nodes| ==> (i in used <==> IsLive(nodes, i));
  }

  /** Without tombstones, a table with no free node at or below the free pointer has a key in every node. */
  lemma StuckMeansFull(nodes: seq<HashNode>, slot: map<SQObject, nat>, firstfree: nat)
    requires SlotsOk(nodes, slot)
    requires forall i :: 0 <= i <= firstfree && i < |nodes| ==> !IsFree(nodes[i])
    ensures NoTombstones(nodes, firstfree) ==> |slot| == |nodes|
  {
    KeysFitNodes(nodes, slot);
  }

  lemma OnlyUnusedNode(nodes: seq<HashNode>, slot: map<SQObject, nat>, f: nat, i: nat)
    requires SlotsOk(nodes, slot) && |slot| + 1 == |nodes| && f < |nodes| && !IsLive(nodes, f) && i < |nodes| &&
             !IsLive(nodes, i)
    ensures i == f
  {
    hide SlotsOk;
    OneNodeForEachKey(nodes, slot);
    var both := LiveNodes(nodes) + {i} + {f};
    SetBelow(both, |nodes|);
    assert i !in LiveNodes(nodes) && f !in LiveNodes(nodes);
    assert i != f ==> |both| == |LiveNodes(nodes)| + 2;
  }

  /** With one node left that holds no key, that node is the one an absent key takes. */
  lemma NoSpareLeft(nodes: seq<HashNode>, slot: map<SQObject, nat>, home: Home, firstfree: nat, key: SQObject)
    requires SlotsOk(nodes, slot) && |slot| + 1 == |nodes| && home(key) < |nodes| && firstfree < |nodes| &&
             IsFree(nodes[firstfree])
    ensures !HasSpare(nodes, home, firstfree, key)
  {
    hide SlotsOk;
    if !IsLive(nodes, home(key)) { OnlyUnusedNode(nodes, slot, firstfree, home(key)); }
    forall i: nat | i < |nodes| && IsFree(nodes[i]) ensures i == firstfree {
      OnlyUnusedNode(nodes, slot, firstfree, i);
    }
  }

  class SQTable {
    const hash: HashFunction
    var nodes: array<HashNode>
    var firstfree: nat
    var usednodes: int
    ghost var layout: Layout

    ghost predicate Valid()
      reads this, nodes
    {
      && WellSized()
      && Ready(nodes[..], layout, HomeFn(hash, nodes.Length), firstfree)
      && usednodes == |layout.slot|
    }

    lemma KeyCount()
      requires Valid()
      ensures usednodes == |Contents()| < nodes.Length
    {
      KeysFitNodes(nodes[..], layout.slot);
      assert !IsLive(nodes[..], firstfree);
      assert layout.slot.Keys == Contents().Keys;
    }

    ghost predicate WellSized()
      reads this
    {
      nodes.Length >= MINPOWER2 && IsPowerOfTwo(nodes.Length)
    }

    /** The finite map this table stands for. */
    ghost function Contents(): map<SQObject, SQObject>
      reads this, nodes
      requires SlotsOk(nodes[..], layout.slot)
    {
      Bindings(nodes[..], layout.slot)
    }

    /** No key was removed since the last allocation, and one more key still leaves a free node. */
    ghost predicate Roomy()
      reads this, nodes
    {
      NoTombstones(nodes[..], firstfree) && usednodes + 1 < nodes.Length
    }

    constructor (hash: HashFunction, initialSize: int)
      ensures Valid() && fresh(nodes)
      ensures this.hash == hash && Contents() == map[] && initialSize <= nodes.Length && usednodes == 0
      ensures initialSize <= MINPOWER2 ==> nodes.Length == MINPOWER2
      ensures NoTombstones(nodes[..], firstfree)
    {
      this.hash := hash;
      var pow2size := MINPOWER2;
      assert IsPowerOfTwo(2) && IsPowerOfTwo(4);
      while initialSize > pow2size
        invariant pow2size >= MINPOWER2 && IsPowerOfTwo(pow2size) &&
                  (initialSize <= MINPOWER2 ==> pow2size == MINPOWER2)
      {
        pow2size := pow2size * 2;
      }
      nodes := new HashNode[pow2size](_ => HashNode(Null, Null, -1));
      firstfree := pow2size - 1;
      usednodes := 0;
      layout := EmptyLayout(pow2size);
      new;
      EmptyNodesAreReady(nodes[..], HomeFn(hash, nodes.Length));
    }

    method AllocNodes(size: nat)
      requires size >= MINPOWER2 && IsPowerOfTwo(size)
      modifies this
      ensures fresh(nodes) && nodes.Length == size && usednodes == old(usednodes)
      ensures firstfree == size - 1 && layout.slot == map[]
      ensures Ready(nodes[..], layout, HomeFn(hash, size), firstfree) && Contents() == map[]
      ensures NoTombstones(nodes[..], firstfree)
    {
      nodes := new HashNode[size](_ => HashNode(Null, Null, -1));
      firstfree := size - 1;
      layout := EmptyLayout(size);
      EmptyNodesAreReady(nodes[..], HomeFn(hash, size));
    }

    /** _Get: walks the chain of the key's home. */
    method Find(key: SQObject) returns (n: int)
      requires nodes.Length > 0 && Consistent(nodes[..], layout, HomeFn(hash, nodes.Length))
      ensures n == -1 ==> key !in layout.slot
      ensures n != -1 ==> 0 <= n < nodes.Length && nodes[n].key == key
      ensures n != -1 && key != Null ==> key in layout.slot && layout.slot[key] == n
    {
      var h := HomeOf(hash, key, nodes.Length);
      n := h;
      while nodes[n].key != key
        invariant 0 <= n < nodes.Length && Reaches(layout.order, h, n)
        invariant forall j :: Reaches(layout.order, h, j) && Before(layout.order, j, n) ==> nodes[j].key != key
        decreases layout.order.height[n]
      {
        if nodes[n].next == -1 {
          forall j | 0 <= j < nodes.Length && Reaches(layout.order, h, j) ensures nodes[j].key != key {
            assert Comparable(layout.order, j, n);
          }
          assert key in layout.slot ==> IsLive(nodes[..], layout.slot[key]);
          return -1;
        }
        ghost var m := nodes[n].next;
        assert Before(layout.order, n, m);
        forall j | Reaches(layout.order, h, j) && Before(layout.order, j, m) ensures nodes[j].key != key {
          assert Comparable(layout.order, j, n);
        }
        n := nodes[n].next;
      }
      assert key != Null ==> IsLive(nodes[..], n);
    }

    method Get(key: SQObject) returns (found: bool, val: SQObject)
      requires Valid()
      ensures found <==> key in Contents()
      ensures found ==> val == Contents()[key]
    {
      val := Null;
      if key == Null { return false, val; }
      var n := Find(key);
      if n != -1 { return true, nodes[n].val; }
      return false, val;
    }

    /** Some node at or below the free pointer stays free when the key is added. */
    ghost predicate SpareNode(key: SQObject)
      reads this, nodes
      requires nodes.Length > 0
    {
      HasSpare(nodes[..], HomeFn(hash, nodes.Length), firstfree, key)
    }

    /** The node before mp on its chain, found by walking from the home of the key in mp. */
    method Predecessor(mp: nat) returns (othern: nat)
      requires nodes.Length > 0 && Consistent(nodes[..], layout, HomeFn(hash, nodes.Length))
      requires mp < nodes.Length && nodes[mp].key != Null && HomeOf(hash, nodes[mp].key, nodes.Length) != mp
      ensures othern < nodes.Length && nodes[othern].next == mp && othern != mp
    {
      ghost var was, order := nodes[..], layout.order;
      othern := HomeOf(hash, nodes[mp].key, nodes.Length);
      assert IsLive(was, mp) && Reaches(order, othern, mp);
      while nodes[othern].next != mp
        invariant nodes[..] == was && 0 <= othern < nodes.Length && Before(order, othern, mp)
        decreases order.height[othern]
      {
        assert Before(order, othern, was[othern].next) && Comparable(order, was[othern].next, mp);
        othern := nodes[othern].next;
      }
    }

    method StoreMoved(mp: nat, n: nat, othern: nat, key: SQObject)
      requires mp < nodes.Length && n < nodes.Length && othern < nodes.Length && mp != n && othern != mp && othern != n
      modifies nodes
      ensures nodes[..] == PlacedByMoving(old(nodes[..]), mp, n, othern, key)
    {
      nodes[othern] := nodes[othern].(next := n);
      nodes[n] := HashNode(nodes[mp].key, nodes[mp].val, nodes[mp].next);
      nodes[mp] := HashNode(Null, Null, -1);
      nodes[mp] := nodes[mp].(key := key);
    }

    method StoreAfter(mp: nat, n: nat, key: SQObject)
      requires mp < nodes.Length && n < nodes.Length && mp != n
      modifies nodes
      ensures nodes[..] == PlacedAfterHome(old(nodes[..]), mp, n, key)
    {
      nodes[n] := nodes[n].(next := nodes[mp].next);
      nodes[mp] := nodes[mp].(next := n);
      nodes[n] := nodes[n].(key := key);
    }

    /** The part of NewSlot that finds a node for a key which is not in the table. */
    method Place(key: SQObject) returns (mp: nat)
      requires nodes.Length > 0 && Ready(nodes[..], layout, HomeFn(hash, nodes.Length), firstfree)
      requires key != Null && key !in layout.slot
      modifies nodes, this`layout
      ensures Placed(old(nodes[..]), old(layout), nodes[..], layout, HomeFn(hash, nodes.Length), firstfree, key, mp)
    {
      ghost var was, home := nodes[..], HomeFn(hash, nodes.Length);
      mp := HomeOf(hash, key, nodes.Length);
      if nodes[mp].key != Null {
        var n := firstfree;  // get a free place
        var mph := HomeOf(hash, nodes[mp].key, nodes.Length);
        if mp > n && mph != mp {
          var othern := Predecessor(mp);
          StoreMoved(mp, n, othern, key);
          layout := MovingPlaces(was, layout, home, mp, n, othern, key);
        } else {
          assert IsLive(was, mp);
          StoreAfter(mp, n, key);
          layout := AfterHomePlaces(was, layout, home, mp, n, key);
          mp := n;
        }
      } else {
        nodes[mp] := nodes[mp].(key := key);
        assert nodes[..] == PlacedAtHome(was, mp, key);
        layout := AtHomePlaces(was, layout, home, mp, key, firstfree);
      }
    }

    method StoreAt(n: nat, val: SQObject)
      requires nodes.Length > 0 && Ready(nodes[..], layout, HomeFn(hash, nodes.Length), firstfree) && n < nodes.Length
      modifies nodes
      ensures Ready(nodes[..], layout, HomeFn(hash, nodes.Length), firstfree)
      ensures nodes[..] == Stored(old(nodes[..]), n, val)
      ensures Contents() == if nodes[n].key == Null then old(Contents()) else old(Contents())[nodes[n].key := val]
      ensures old(NoTombstones(nodes[..], firstfree)) ==> NoTombstones(nodes[..], firstfree)
    {
      if NoTombstones(nodes[..], firstfree) { StoreKeepsNoTombstones(nodes[..], n, val, firstfree); }
      StoreKeepsShape(nodes[..], layout, HomeFn(hash, nodes.Length), n, val, firstfree + 1);
      nodes[n] := nodes[n].(val := val);
      assert nodes[..] == Stored(old(nodes[..]), n, val);
    }

    method Set(key: SQObject, val: SQObject) returns (found: bool)
      requires Valid()
      modifies nodes
      ensures Valid()
      ensures key != Null ==> (found <==> key in old(Contents()))
      ensures Contents() == if found && key != Null then old(Contents())[key := val] else old(Contents())
    {
      var n := Find(key);
      if n != -1 {
        StoreAt(n, val);
        return true;
      }
      return false;
    }

    /** The loop of NewSlot that lowers the free pointer to a free node, if there is one. */
    method CorrectFirstFree() returns (ok: bool)
      requires firstfree < nodes.Length
      modifies this`firstfree
      ensures firstfree <= old(firstfree)
      ensures ok ==> IsFree(nodes[firstfree]) && forall i :: firstfree < i <= old(firstfree) ==> !IsFree(nodes[i])
      ensures !ok ==> forall i :: 0 <= i <= old(firstfree) ==> !IsFree(nodes[i])
    {
      while true
        invariant firstfree <= old(firstfree)
        invariant forall i :: firstfree < i <= old(firstfree) ==> !IsFree(nodes[i])
        decreases firstfree
      {
        if IsFree(nodes[firstfree]) {
          return true;
        } else if firstfree == 0 {
          return false;
        }
        firstfree := firstfree - 1;
      }
    }

    method PlaceKey(key: SQObject, ghost val: SQObject) returns (mp: nat)
      requires Valid() && key != Null && key !in layout.slot
      modifies this`layout, nodes
      ensures mp < nodes.Length && nodes[mp].key == key && key in layout.slot
      ensures Consistent(nodes[..], layout, HomeFn(hash, nodes.Length)) && |layout.slot| == usednodes + 1
      ensures UntouchedBelow(nodes[..], layout.order, HomeFn(hash, nodes.Length), firstfree)
      ensures IsFree(nodes[firstfree]) ==> UntouchedBelow(nodes[..], layout.order, HomeFn(hash, nodes.Length),
                                                          firstfree + 1)
      ensures Contents()[key := val] == old(Contents())[key := val]
      ensures old(SpareNode(key)) <==> exists i :: 0 <= i <= firstfree && IsFree(nodes[i])
      ensures old(NoTombstones(nodes[..], firstfree)) ==> NoTombstones(nodes[..], firstfree)
    {
      hide ChainsOk, HomesOk;
      ghost var was, slot, home := nodes[..], layout.slot, HomeFn(hash, nodes.Length);
      mp := Place(key);
      ghost var now := nodes[..];
      PlacedKeys(slot, layout.slot, key);
      PlacedContents(was, slot, now, layout.slot, key, val);
      PlacedSpare(was, now, home, firstfree, key);
      assert now[mp] == nodes[mp];
    }

    /** NewSlot up to the end of its loop: the key is in node mp, and ok says whether a free node is left. */
    method PlaceAndScan(key: SQObject, ghost val: SQObject) returns (mp: nat, ok: bool)
      requires Valid() && key != Null && key !in layout.slot
      modifies this`firstfree, this`layout, nodes
      ensures mp < nodes.Length && nodes[mp].key == key
      ensures SlotsOk(nodes[..], layout.slot) && |layout.slot| == usednodes + 1 && key in layout.slot
      ensures Contents()[key := val] == old(Contents())[key := val]
      ensures ok <==> old(SpareNode(key))
      ensures ok ==> Ready(nodes[..], layout, HomeFn(hash, nodes.Length), firstfree)
      ensures old(Roomy()) ==> ok && NoTombstones(nodes[..], firstfree)
    {
      hide ChainsOk, HomesOk;
      ghost var start := firstfree;
      mp := PlaceKey(key, val);
      ok := CorrectFirstFree();
      if ok {
        FreePointerMoves(nodes[..], layout, HomeFn(hash, nodes.Length), start, firstfree);
      } else {
        StuckMeansFull(nodes[..], layout.slot, start);
      }
    }

    /** The part of NewSlot between the search and the rehash. */
    method Insert(key: SQObject, val: SQObject) returns (ok: bool)
      requires Valid() && key != Null && key !in layout.slot
      modifies this`firstfree, this`usednodes, this`layout, nodes
      ensures ok <==> old(SpareNode(key))
      ensures ok ==> Valid() && Contents() == old(Contents())[key := val]
      ensures !ok ==> SlotsOk(nodes[..], layout.slot) && usednodes + 1 == |layout.slot|
      ensures !ok ==> key in Contents() && Contents()[key := val] == old(Contents())[key := val]
      ensures old(Roomy()) ==> ok && NoTombstones(nodes[..], firstfree)
    {
      hide ChainsOk, HomesOk, UntouchedBelow, NoTombstones, IsFree, HasSpare;
      var mp;
      mp, ok := PlaceAndScan(key, val);
      if ok {
        StoreAt(mp, val);
        usednodes := usednodes + 1;
      }
    }

    /** Returns true only for a new key that needed no rehash: a rehash places the key before the second attempt. */
    method NewSlot(key: SQObject, val: SQObject) returns (created: bool)
      requires Valid() && key != Null
      modifies this, nodes
      ensures Valid() && (nodes == old(nodes) || fresh(nodes))
      ensures Contents() == old(Contents())[key := val]
      ensures created <==> key !in old(Contents()) && old(SpareNode(key))
      ensures old(Roomy()) ==> (created <==> key !in old(Contents()))
      ensures old(usednodes) + 1 == old(nodes.Length) ==> !created
      ensures old(Roomy()) || key in old(Contents()) ==> nodes == old(nodes)
      ensures old(Roomy()) ==> NoTombstones(nodes[..], firstfree)
      decreases if key in layout.slot || Roomy() then 0 else 2, 0
    {
      var n := Find(key);
      if n != -1 {
        StoreAt(n, val);
        return false;
      }
      if usednodes + 1 == nodes.Length {
        NoSpareLeft(nodes[..], layout.slot, HomeFn(hash, nodes.Length), firstfree, key);
      }
      var ok := Insert(key, val);
      if ok { return true; }
      Rehash(true);
      created := NewSlot(key, val);
    }

    /** The loop of Rehash: inserts the live nodes of the old array into the new one. */
    method Reinsert(nold: array<HashNode>, ghost slots: map<SQObject, nat>)
      requires Valid() && Contents() == map[] && NoTombstones(nodes[..], firstfree)
      requires nold != nodes && SlotsOk(nold[..], slots) && |slots| < nodes.Length
      modifies this, nodes
      ensures Valid() && nodes == old(nodes)
      ensures Contents() == Bindings(nold[..], slots)
      decreases 1, 0
    {
      hide ChainsOk, HomesOk, UntouchedBelow, NoTombstones, IsFree;
      ghost var was := nold[..];
      for i := 0 to nold.Length
        invariant Valid() && nodes == old(nodes) && nold[..] == was && NoTombstones(nodes[..], firstfree)
        invariant Contents() == BindingsBelow(was, slots, i)
      {
        OneMoreBelow(was, slots, i);
        if nold[i].key != Null {
          ReinsertNode(nold[i].key, nold[i].val, slots);
        }
      }
    }

    /** There is room for a key that is not yet in the new nodes. */
    method ReinsertNode(key: SQObject, val: SQObject, ghost slots: map<SQObject, nat>)
      requires Valid() && NoTombstones(nodes[..], firstfree) && key != Null && key in slots
      requires Contents().Keys <= slots.Keys - {key} && |slots| < nodes.Length
      modifies this, nodes
      ensures Valid() && nodes == old(nodes) && NoTombstones(nodes[..], firstfree)
      ensures Contents() == old(Contents())[key := val]
      decreases 0, 1
    {
      hide ChainsOk, HomesOk, UntouchedBelow, NoTombstones, IsFree;
      assert layout.slot.Keys == Contents().Keys;
      SubsetSize(layout.slot.Keys, slots.Keys - {key});
      var _ := NewSlot(key, val);
    }

    method Rehash(force: bool)
      requires WellSized() && SlotsOk(nodes[..], layout.slot) && usednodes <= |layout.slot| <= usednodes + 1
      requires !force ==> Valid()
      modifies this
      ensures Valid() && Contents() == old(Contents())
      ensures nodes == old(nodes) || fresh(nodes)
      decreases 1, 1
    {
      var oldsize := nodes.Length;
      if oldsize < 4 { oldsize := 4; }
      var nold := nodes;
      ghost var slots := layout.slot;
      var nelems := usednodes;
      KeysFitNodes(nodes[..], layout.slot);
      if nelems >= oldsize - oldsize / 4 {
        AllocNodes(oldsize * 2);
      } else if nelems <= oldsize / 4 && oldsize > MINPOWER2 {
        assert !IsPowerOfTwo(3) && oldsize / 2 >= 3;
        AllocNodes(oldsize / 2);
      } else if force {
        AllocNodes(oldsize);
      } else {
        return;
      }
      usednodes := 0;
      Reinsert(nold, slots);
    }

    method EraseAt(n: nat)
      requires Valid() && n < nodes.Length && nodes[n].key != Null
      modifies nodes, this`layout, this`usednodes
      ensures Valid()
      ensures Contents() == old(Contents()) - {old(nodes[n].key)}
    {
      hide ChainsOk, HomesOk, UntouchedBelow, IsFree;
      ghost var was, slot, key := nodes[..], layout.slot, nodes[n].key;
      EraseKeepsRest(was, layout, HomeFn(hash, nodes.Length), n, firstfree);
      nodes[n] := HashNode(Null, Null, nodes[n].next);
      assert nodes[..] == Erased(was, n);
      layout := layout.(slot := slot - {key});
      assert slot.Keys == layout.slot.Keys + {key};
      usednodes := usednodes - 1;
    }

    method Remove(key: SQObject)
      requires Valid() && key != Null
      modifies this, nodes
      ensures Valid() && (nodes == old(nodes) || fresh(nodes))
      ensures Contents() == old(Contents()) - {key}
    {
      var n := Find(key);
      if n != -1 {
        EraseAt(n);
        Rehash(false);
      } else {
        assert Contents() - {key} == Contents();
      }
    }

    method ClearNodes()
      modifies nodes
      ensures forall i :: 0 <= i < nodes.Length ==> nodes[i] == HashNode(Null, Null, old(nodes[i].next))
    {
      for i := 0 to nodes.Length
        invariant forall j :: 0 <= j < i ==> nodes[j] == HashNode(Null, Null, old(nodes[j].next))
        invariant forall j :: i <= j < nodes.Length ==> nodes[j] == old(nodes[j])
      {
        nodes[i] := HashNode(Null, Null, nodes[i].next);
      }
    }

    method Clear()
      requires Valid()
      modifies this, nodes
      ensures Valid() && Contents() == map[]
      ensures nodes == old(nodes) || fresh(nodes)
    {
      ClearNodes();
      layout := layout.(slot := map[]);
      usednodes := 0;
      Rehash(true);
    }

    /** One step of an iteration: the first live node at or after idx, and the index to go on from, or -1. */
    method Next(idx: nat) returns (pos: int, key: SQObject, val: SQObject)
      requires Valid()
      ensures pos == -1 ==> forall i :: idx <= i < nodes.Length ==> nodes[i].key == Null
      ensures pos != -1 ==>
                && idx < pos <= nodes.Length && key != Null && nodes[pos - 1].key == key && nodes[pos - 1].val == val
                && (forall i :: idx <= i < pos - 1 ==> nodes[i].key == Null)
                && key in Contents() && Contents()[key] == val
    {
      key, val := Null, Null;
      var i := idx;
      while i < nodes.Length
        invariant idx <= i
        invariant forall j :: idx <= j < i && j < nodes.Length ==> nodes[j].key == Null
      {
        if nodes[i].key != Null {
          assert IsLive(nodes[..], i);
          return i + 1, nodes[i].key, nodes[i].val;
        }
        i := i + 1;
      }
      return -1, key, val;
    }

    /** One iteration of Clone: copies the first live slot at or after ridx. */
    method CopySlot(nt: SQTable, ridx: nat) returns (pos: int)
      requires Valid() && nt.Valid() && ridx <= nodes.Length && nt != this && nt.nodes != nodes
      requires nt.Contents() == BindingsBelow(nodes[..], layout.slot, ridx)
      modifies nt, nt.nodes
      ensures nt.Valid() && (nt.nodes == old(nt.nodes) || fresh(nt.nodes))
      ensures pos == -1 ==> nt.Contents() == Contents()
      ensures pos != -1 ==> ridx < pos <= nodes.Length && nt.Contents() == BindingsBelow(nodes[..], layout.slot, pos)
    {
      hide ChainsOk, HomesOk, UntouchedBelow;
      var key, val;
      ghost var was, slot := nodes[..], layout.slot;
      pos, key, val := Next(ridx);
      if pos == -1 {
        NothingBetween(was, slot, ridx, nodes.Length);
      } else {
        NextBelow(was, slot, ridx, pos);
        var _ := nt.NewSlot(key, val);
        assert nodes[..] == was;
      }
    }

    method Clone() returns (nt: SQTable)
      requires Valid()
      ensures fresh(nt) && fresh(nt.nodes) && nt.Valid() && nt.Contents() == Contents()
    {
      nt := new SQTable(hash, nodes.Length);
      var ridx, done := 0, false;
      while !done
        invariant 0 <= ridx <= nodes.Length
        invariant fresh(nt) && fresh(nt.nodes) && nt.Valid()
        invariant nt.Contents() == if done then Contents() else BindingsBelow(nodes[..], layout.slot, ridx)
        decreases nodes.Length - ridx, !done
      {
        var pos := CopySlot(nt, ridx);
        if pos == -1 { done := true; } else { ridx := pos; }
      }
    }

    /** A whole iteration lists exactly the bindings, each key once. */
    method Iterate() returns (keys: seq<SQObject>, vals: seq<SQObject>)
      requires Valid()
      ensures |keys| == |vals| == |Contents()| && forall i, j :: 0 <= i < j < |keys| ==> keys[i] != keys[j]
      ensures forall k :: k in Contents() <==> k in keys
      ensures forall i :: 0 <= i < |keys| ==> keys[i] in Contents() && vals[i] == Contents()[keys[i]]
    {
      hide ChainsOk, HomesOk, UntouchedBelow, SlotsOk, BindingsBelow;
      keys, vals := [], [];
      var idx := 0;
      NothingListed(nodes[..], layout.slot);
      while true
        invariant idx <= nodes.Length && Lists(keys, vals, BindingsBelow(nodes[..], layout.slot, idx))
        decreases nodes.Length - idx
      {
        var pos, key, val := Next(idx);
        if pos == -1 {
          NothingBetween(nodes[..], layout.slot, idx, nodes.Length);
          return;
        }
        NextBelow(nodes[..], layout.slot, idx, pos);
        NotYetListed(nodes[..], layout.slot, idx, pos);
        ListsOneMore(keys, vals, BindingsBelow(nodes[..], layout.slot, idx), key, val);
        keys, vals := keys + [key], vals + [val];
        idx := pos;
      }
    }

    method Step(op: TableOp)
      requires Valid() && (op.ClearOp? || op.key != Null)
      modifies this, nodes
      ensures Valid() && Contents() == Applied(op, old(Contents()))
      ensures nodes == old(nodes) || fresh(nodes)
    {
      match op {
        case NewSlotOp(key, val) => var _ := NewSlot(key, val);
        case SetOp(key, val) => var _ := Set(key, val);
        case RemoveOp(key) => Remove(key);
        case ClearOp => Clear();
      }
    }

    /** Any run of table operations does to the table what it does to the finite map. */
    method Run(ops: seq<TableOp>)
      requires Valid() && forall op :: op in ops && !op.ClearOp? ==> op.key != Null
      modifies this, nodes
      ensures Valid() && Contents() == AppliedAll(ops, old(Contents()))
      ensures nodes == old(nodes) || fresh(nodes)
      decreases ops
    {
      if ops != [] {
        Step(ops[0]);
        Run(ops[1..]);
      }
    }
  }

  datatype TableOp =
    | NewSlotOp(key: SQObject, val: SQObject)
    | SetOp(key: SQObject, val: SQObject)
    | RemoveOp(key: SQObject)
    | ClearOp

  ghost function Applied(op: TableOp, m: map<SQObject, SQObject>): map<SQObject, SQObject> {
    match op
    case NewSlotOp(key, val) => m[key := val]
    case SetOp(key, val) => if key in m then m[key := val] else m
    case RemoveOp(key) => m - {key}
    case ClearOp => map[]
  }

  ghost function AppliedAll(ops: seq<TableOp>, m: map<SQObject, SQObject>): map<SQObject, SQObject> {
    if ops == [] then m else AppliedAll(ops[1..], Applied(ops[0], m))
  }

  /** A new key for a table from which nothing was removed is reported as new unless it takes the last unused node. */
  method AddNewKey(t: SQTable, key: SQObject, val: SQObject) returns (created: bool)
    requires t.Valid() && key != Null && key !in t.Contents() && NoTombstones(t.nodes[..], t.firstfree)
    modifies t, t.nodes
    ensures t.Valid() && t.Contents() == old(t.Contents())[key := val] && t.usednodes == old(t.usednodes) + 1
    ensures created <==> old(t.usednodes) + 1 < old(t.nodes.Length)
    ensures created ==> t.nodes == old(t.nodes) && NoTombstones(t.nodes[..], t.firstfree)
    ensures t.nodes == old(t.nodes) || fresh(t.nodes)
  {
    hide ChainsOk, SlotsOk, HomesOk, UntouchedBelow, NoTombstones;
    t.KeyCount();
    created := t.NewSlot(key, val);
    t.KeyCount();
  }

  /** Four new keys for a new table: the fourth is stored like the others, but reported as if it had been there. */
  method FourthKeyIsDenied(hash: HashFunction, keys: seq<SQObject>, val: SQObject)
    returns (t: SQTable, created: seq<bool>)
    requires |keys| == 4 && Null !in keys && forall i, j :: 0 <= i < j < 4 ==> keys[i] != keys[j]
    ensures created == [true, true, true, false]
    ensures t.Valid() && t.Contents() == map[keys[0] := val, keys[1] := val, keys[2] := val, keys[3] := val]
  {
    hide SQTable.Valid, NoTombstones;
    t := new SQTable(hash, 0);
    var c0 := AddNewKey(t, keys[0], val);
    var c1 := AddNewKey(t, keys[1], val);
    var c2 := AddNewKey(t, keys[2], val);
    var c3 := AddNewKey(t, keys[3], val);
    created := [c0, c1, c2, c3];
  }
}
