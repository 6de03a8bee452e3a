/** The invariant of the chained scatter table, on sequences of nodes, and what each insertion step does to it. */
module ScatterTable {
  import opened Objects

  /** The main position of each key: the node its chain starts from. */
  type Home = SQObject -> nat

  /** `next` is the index of the following node of the chain, or -1. */
  datatype HashNode = HashNode(key: SQObject, val: SQObject, next: int)

  /**
   * Ghost description of the node array: the chain a node is on, its height above the end of it, and where each key
   * lives.
   */
  datatype Layout = Layout(order: Order, slot: map<SQObject, nat>)
  datatype Order = Order(chain: seq<int>, height: seq<nat>)

  predicate IsLive(nodes: seq<HashNode>, i: int) {
    0 <= i < |nodes| && nodes[i].key != Null
  }

  predicate IsFree(node: HashNode) {
    node.key == Null && node.next == -1
  }

  ghost predicate Sized(nodes: seq<HashNode>, o: Order) {
    |o.chain| == |nodes| && |o.height| == |nodes|
  }

  /** i comes before j on one chain. */
  ghost predicate Before(o: Order, i: int, j: int) {
    0 <= i < |o.chain| && 0 <= j < |o.chain| && |o.height| == |o.chain|
    && o.chain[i] == o.chain[j] && o.height[i] > o.height[j]
  }

  /** Two nodes of one chain have different places on it. */
  ghost predicate Comparable(o: Order, i: int, j: int)
    requires 0 <= i < |o.chain| && 0 <= j < |o.chain|
  {
    i == j || o.chain[i] != o.chain[j] || Before(o, i, j) || Before(o, j, i)
  }

  ghost predicate Reaches(o: Order, i: int, j: int) {
    i == j || Before(o, i, j)
  }

  /** Links go forward, and every two nodes of a chain are joined by links: chains are acyclic paths. */
  ghost predicate ChainsOk(nodes: seq<HashNode>, o: Order) {
    && Sized(nodes, o)
    && (forall i :: 0 <= i < |nodes| ==> -1 <= nodes[i].next < |nodes|)
    && (forall i :: 0 <= i < |nodes| && nodes[i].next != -1 ==> Before(o, i, nodes[i].next))
    && (forall i, j :: Before(o, i, j) ==> nodes[i].next != -1 && o.height[nodes[i].next] >= o.height[j])
    && (forall i, j :: 0 <= i < |nodes| && 0 <= j < |nodes| ==> Comparable(o, i, j))
  }

  /** `slot` is the inverse of the live nodes' keys, so live keys are unique. */
  ghost predicate SlotsOk(nodes: seq<HashNode>, slot: map<SQObject, nat>) {
    && (forall i {:trigger IsLive(nodes, i)} :: IsLive(nodes, i) ==> nodes[i].key in slot && slot[nodes[i].key] == i)
    && (forall k :: k in slot ==> k != Null && slot[k] < |nodes| && nodes[slot[k]].key == k)
  }

  /** Every live key is reached from its home, and a home that is occupied while it has keys holds one of them. */
  ghost predicate HomesOk(nodes: seq<HashNode>, o: Order, home: Home) {
    && |nodes| > 0
    && Sized(nodes, o)
    && (forall i {:trigger IsLive(nodes, i)} :: IsLive(nodes, i) ==>
          var h := home(nodes[i].key);
          Reaches(o, h, i) && (nodes[h].key != Null ==> home(nodes[h].key) == h))
  }

  /** The free pointer has not passed the nodes below `bound`: none has a predecessor or a key from another home. */
  ghost predicate UntouchedBelow(nodes: seq<HashNode>, o: Order, home: Home, bound: int) {
    && |nodes| > 0
    && (forall i, j :: 0 <= i < bound && i < |nodes| ==> !Before(o, j, i))
    && (forall i {:trigger IsLive(nodes, i)} :: 0 <= i < bound && IsLive(nodes, i) ==> home(nodes[i].key) == i)
  }

  ghost predicate Consistent(nodes: seq<HashNode>, l: Layout, home: Home) {
    && ChainsOk(nodes, l.order)
    && SlotsOk(nodes, l.slot)
    && HomesOk(nodes, l.order, home)
  }

  /** The finite map the table stands for. */
  ghost function Bindings(nodes: seq<HashNode>, slot: map<SQObject, nat>): map<SQObject, SQObject>
    requires SlotsOk(nodes, slot)
  {
    map k | k in slot :: nodes[slot[k]].val
  }

  /** No key has been removed since the nodes were allocated. */
  ghost predicate NoTombstones(nodes: seq<HashNode>, firstfree: int) {
    && (forall i :: 0 <= i < |nodes| && nodes[i].key == Null ==> nodes[i].next == -1)
    && (forall i :: 0 <= i < |nodes| && firstfree < i ==> nodes[i].key != Null)
  }

  /** The invariant of the table between calls, for a given free pointer. */
  ghost predicate Ready(nodes: seq<HashNode>, l: Layout, home: Home, firstfree: int) {
    && Consistent(nodes, l, home)
    && 0 <= firstfree < |nodes| && IsFree(nodes[firstfree])
    && UntouchedBelow(nodes, l.order, home, firstfree + 1)
  }

  // ---------- the three ways NewSlot places an absent key ----------

  /** The key's home is empty. */
  ghost function PlacedAtHome(nodes: seq<HashNode>, h: nat, key: SQObject): seq<HashNode>
    requires h < |nodes|
  {
    nodes[h := nodes[h].(key := key)]
  }

  /** The home holds one of its own keys: the new key goes to the free node f, right after the home. */
  ghost function PlacedAfterHome(nodes: seq<HashNode>, h: nat, f: nat, key: SQObject): seq<HashNode>
    requires h < |nodes| && f < |nodes|
  {
    nodes[f := nodes[f].(key := key, next := nodes[h].next)][h := nodes[h].(next := f)]
  }

  /** The home holds a stranger: the stranger moves to f, in its place on its chain, and the key takes the home. */
  ghost function PlacedByMoving(nodes: seq<HashNode>, h: nat, f: nat, p: nat, key: SQObject): seq<HashNode>
    requires h < |nodes| && f < |nodes| && p < |nodes|
  {
    nodes[p := nodes[p].(next := f)][f := nodes[h]][h := HashNode(key, Null, -1)]
  }

  ghost function LayoutAtHome(l: Layout, h: nat, key: SQObject): Layout {
    l.(slot := l.slot[key := h])
  }

  /** Makes room on the chain below node h. */
  ghost function LiftedAbove(o: Order, h: nat): seq<nat>
    requires h < |o.chain| == |o.height|
  {
    seq(|o.height|, i requires 0 <= i < |o.height| =>
      if o.chain[i] == o.chain[h] && o.height[i] >= o.height[h] then o.height[i] + 1 else o.height[i])
  }

  ghost function LayoutAfterHome(nodes: seq<HashNode>, l: Layout, h: nat, f: nat, key: SQObject): Layout
    requires ChainsOk(nodes, l.order) && h < |nodes| && f < |nodes|
  {
    Layout(Order(l.order.chain[f := l.order.chain[h]], LiftedAbove(l.order, h)[f := l.order.height[h]]),
           l.slot[key := f])
  }

  ghost function LayoutByMoving(nodes: seq<HashNode>, l: Layout, h: nat, f: nat, key: SQObject): Layout
    requires Sized(nodes, l.order) && h < |nodes| && f < |nodes|
  {
    Layout(Order(l.order.chain[f := l.order.chain[h]][h := l.order.chain[f]],
                 l.order.height[f := l.order.height[h]][h := l.order.height[f]]),
           l.slot[nodes[h].key := f][key := h])
  }

  ghost predicate CanPlace(nodes: seq<HashNode>, l: Layout, home: Home, h: nat, key: SQObject) {
    && Consistent(nodes, l, home)
    && h < |nodes|
    && key != Null && key !in l.slot
    && home(key) == h
  }

  lemma PlaceAtHome(nodes: seq<HashNode>, l: Layout, home: Home, h: nat, key: SQObject, bound: nat)
    requires CanPlace(nodes, l, home, h, key) && nodes[h].key == Null
    requires UntouchedBelow(nodes, l.order, home, bound)
    ensures Consistent(PlacedAtHome(nodes, h, key), LayoutAtHome(l, h, key), home)
    ensures UntouchedBelow(PlacedAtHome(nodes, h, key), LayoutAtHome(l, h, key).order, home, bound)
  {
    var nodes', l' := PlacedAtHome(nodes, h, key), LayoutAtHome(l, h, key);
    assert forall i, j :: Before(l'.order, i, j) <==> Before(l.order, i, j);
    assert forall i :: IsLive(nodes', i) <==> (IsLive(nodes, i) || i == h);
    assert forall i :: 0 <= i < |nodes| ==> nodes'[i].next == nodes[i].next;
  }

  /** A node the free pointer may still hand out is alone on its chain. */
  lemma FreeIsAlone(nodes: seq<HashNode>, l: Layout, home: Home, f: nat)
    requires ChainsOk(nodes, l.order) && f < |nodes| && IsFree(nodes[f])
    requires UntouchedBelow(nodes, l.order, home, f + 1)
    ensures forall i :: !Before(l.order, i, f) && !Before(l.order, f, i)
    ensures forall i :: 0 <= i < |nodes| && i != f ==> l.order.chain[i] != l.order.chain[f]
  {
    forall i | 0 <= i < |nodes| && i != f ensures l.order.chain[i] != l.order.chain[f] {
      assert Comparable(l.order, i, f) && !Before(l.order, i, f) && !Before(l.order, f, i);
    }
  }

  lemma OrderAfterHome(nodes: seq<HashNode>, l: Layout, home: Home, h: nat, f: nat, key: SQObject)
    requires ChainsOk(nodes, l.order) && h < |nodes|
    requires f < |nodes| && f != h && IsFree(nodes[f])
    requires UntouchedBelow(nodes, l.order, home, f + 1)
    ensures var l' := LayoutAfterHome(nodes, l, h, f, key);
            forall i, j :: Before(l'.order, i, j) <==>
              if i == f then Before(l.order, h, j) else if j == f then i == h ||
                Before(l.order, i, h) else Before(l.order, i, j)
  {
    FreeIsAlone(nodes, l, home, f);
    var l' := LayoutAfterHome(nodes, l, h, f, key);
    forall j | 0 <= j < |nodes| && j != f
      ensures Before(l'.order, f, j) <==> Before(l.order, h, j)
      ensures Before(l'.order, j, f) <==> j == h || Before(l.order, j, h)
    {
      assert Comparable(l.order, h, j);
      assert Before(l.order, h, j) ==> nodes[h].next != -1 && l.order.height[nodes[h].next] >= l.order.height[j];
    }
  }

  lemma ChainsAfterHome(nodes: seq<HashNode>, l: Layout, home: Home, h: nat, f: nat, key: SQObject)
    requires ChainsOk(nodes, l.order) && h < |nodes|
    requires f < |nodes| && f != h && IsFree(nodes[f])
    requires UntouchedBelow(nodes, l.order, home, f + 1)
    ensures ChainsOk(PlacedAfterHome(nodes, h, f, key), LayoutAfterHome(nodes, l, h, f, key).order)
  {
    var nodes', l' := PlacedAfterHome(nodes, h, f, key), LayoutAfterHome(nodes, l, h, f, key);
    FreeIsAlone(nodes, l, home, f);
    OrderAfterHome(nodes, l, home, h, f, key);
    forall i, j | 0 <= i < |nodes| && 0 <= j < |nodes| ensures Comparable(l'.order, i, j) {
      var a, b := if i == f then h else i, if j == f then h else j;
      assert Comparable(l.order, a, b);
    }
    forall i, j | Before(l'.order, i, j) ensures nodes'[i].next != -1 &&
      l'.order.height[nodes'[i].next] >= l'.order.height[j]
    {
      if i == f {
        assert Before(l.order, h, j);
      } else if i == h {
      } else if j == f {
        assert Before(l.order, i, h);
        assert Before(l'.order, h, f);
      } else {
        assert Before(l.order, i, j);
      }
    }
  }

  lemma PlaceAfterHome(nodes: seq<HashNode>, l: Layout, home: Home, h: nat, f: nat, key: SQObject)
    requires CanPlace(nodes, l, home, h, key) && nodes[h].key != Null && home(nodes[h].key) == h
    requires f < |nodes| && IsFree(nodes[f])
    requires UntouchedBelow(nodes, l.order, home, f + 1)
    ensures Consistent(PlacedAfterHome(nodes, h, f, key), LayoutAfterHome(nodes, l, h, f, key), home)
    ensures UntouchedBelow(PlacedAfterHome(nodes, h, f, key), LayoutAfterHome(nodes, l, h, f, key).order, home, f)
  {
    var nodes', l' := PlacedAfterHome(nodes, h, f, key), LayoutAfterHome(nodes, l, h, f, key);
    FreeIsAlone(nodes, l, home, f);
    OrderAfterHome(nodes, l, home, h, f, key);
    ChainsAfterHome(nodes, l, home, h, f, key);
    assert forall i :: IsLive(nodes', i) <==> (IsLive(nodes, i) || i == f);
  }

  lemma OrderByMoving(nodes: seq<HashNode>, l: Layout, home: Home, h: nat, f: nat, key: SQObject)
    requires ChainsOk(nodes, l.order) && h < |nodes|
    requires f < |nodes| && f != h && IsFree(nodes[f])
    requires UntouchedBelow(nodes, l.order, home, f + 1)
    ensures var l' := LayoutByMoving(nodes, l, h, f, key);
            forall i, j :: Before(l'.order, i, j) <==>
              i != h && j != h && Before(l.order, if i == f then h else i, if j == f then h else j)
  {
    FreeIsAlone(nodes, l, home, f);
  }

  lemma SlotsByMoving(nodes: seq<HashNode>, l: Layout, h: nat, f: nat, p: nat, key: SQObject)
    requires Sized(nodes, l.order) && SlotsOk(nodes, l.slot) && h < |nodes| && nodes[h].key != Null
    requires f < |nodes| && f != h && IsFree(nodes[f]) && p < |nodes| && p != f && p != h
    requires key != Null && key !in l.slot
    ensures SlotsOk(PlacedByMoving(nodes, h, f, p, key), LayoutByMoving(nodes, l, h, f, key).slot)
  {
    var nodes', slot' := PlacedByMoving(nodes, h, f, p, key), LayoutByMoving(nodes, l, h, f, key).slot;
    assert IsLive(nodes, h);
    forall i | IsLive(nodes', i) ensures nodes'[i].key in slot' && slot'[nodes'[i].key] == i {
      if i != h && i != f { assert IsLive(nodes, i); }
    }
  }

  lemma HomeByMoving(nodes: seq<HashNode>, l: Layout, home: Home, h: nat, f: nat, p: nat, key: SQObject, i: nat)
    requires CanPlace(nodes, l, home, h, key) && nodes[h].key != Null && home(nodes[h].key) != h
    requires f < h && IsFree(nodes[f]) && p < |nodes| && nodes[p].next == h && p != f && p != h
    requires UntouchedBelow(nodes, l.order, home, f + 1)
    requires IsLive(PlacedByMoving(nodes, h, f, p, key), i)
    ensures var nodes', l' := PlacedByMoving(nodes, h, f, p, key), LayoutByMoving(nodes, l, h, f, key);
            var g := home(nodes'[i].key);
            Reaches(l'.order, g, i) && (nodes'[g].key != Null ==> home(nodes'[g].key) == g)
  {
    OrderByMoving(nodes, l, home, h, f, key);
    FreeIsAlone(nodes, l, home, f);
    if i != h {
      var was := if i == f then h else i;
      assert IsLive(nodes, was);
      var g := home(nodes[was].key);
      assert Reaches(l.order, g, was) && g != h && g != f;
      assert nodes[g].key != Null ==> home(nodes[g].key) == g;
    }
  }

  lemma PlaceByMoving(nodes: seq<HashNode>, l: Layout, home: Home, h: nat, f: nat, p: nat, key: SQObject)
    requires CanPlace(nodes, l, home, h, key) && nodes[h].key != Null && home(nodes[h].key) != h
    requires f < h && IsFree(nodes[f]) && p < |nodes| && nodes[p].next == h
    requires UntouchedBelow(nodes, l.order, home, f + 1)
    ensures Consistent(PlacedByMoving(nodes, h, f, p, key), LayoutByMoving(nodes, l, h, f, key), home)
    ensures UntouchedBelow(PlacedByMoving(nodes, h, f, p, key), LayoutByMoving(nodes, l, h, f, key).order, home, f)
  {
    var nodes', l' := PlacedByMoving(nodes, h, f, p, key), LayoutByMoving(nodes, l, h, f, key);
    ChainsByMoving(nodes, l, home, h, f, p, key);
    assert Before(l.order, p, h);
    SlotsByMoving(nodes, l, h, f, p, key);
    assert HomesOk(nodes', l'.order, home) by {
      forall i: nat | IsLive(nodes', i)
        ensures Reaches(l'.order, home(nodes'[i].key), i)
        ensures var g := home(nodes'[i].key); nodes'[g].key != Null ==> home(nodes'[g].key) == g
      {
        HomeByMoving(nodes, l, home, h, f, p, key, i);
      }
    }
    UntouchedByMoving(nodes, l, home, h, f, p, key);
  }

  lemma UntouchedByMoving(nodes: seq<HashNode>, l: Layout, home: Home, h: nat, f: nat, p: nat, key: SQObject)
    requires ChainsOk(nodes, l.order) && h < |nodes|
    requires f < h && IsFree(nodes[f]) && p < |nodes| && p != f && p != h
    requires UntouchedBelow(nodes, l.order, home, f + 1)
    ensures UntouchedBelow(PlacedByMoving(nodes, h, f, p, key), LayoutByMoving(nodes, l, h, f, key).order, home, f)
  {
    OrderByMoving(nodes, l, home, h, f, key);
    var nodes' := PlacedByMoving(nodes, h, f, p, key);
    forall i | 0 <= i < f && IsLive(nodes', i) ensures home(nodes'[i].key) == i {
      assert IsLive(nodes, i);
    }
  }

  lemma ChainsByMoving(nodes: seq<HashNode>, l: Layout, home: Home, h: nat, f: nat, p: nat, key: SQObject)
    requires ChainsOk(nodes, l.order) && h < |nodes|
    requires f < |nodes| && f != h && IsFree(nodes[f]) && p < |nodes| && nodes[p].next == h
    requires UntouchedBelow(nodes, l.order, home, f + 1)
    ensures ChainsOk(PlacedByMoving(nodes, h, f, p, key), LayoutByMoving(nodes, l, h, f, key).order)
  {
    var nodes', l' := PlacedByMoving(nodes, h, f, p, key), LayoutByMoving(nodes, l, h, f, key);
    FreeIsAlone(nodes, l, home, f);
    OrderByMoving(nodes, l, home, h, f, key);
    OnePredecessor(nodes, l, p, h);
    forall i, j | 0 <= i < |nodes| && 0 <= j < |nodes| ensures Comparable(l'.order, i, j) {
      assert Comparable(l.order, if i == f then h else if i == h then f else i,
                        if j == f then h else if j == h then f else j);
    }
  }

  lemma OnePredecessor(nodes: seq<HashNode>, l: Layout, p: nat, h: nat)
    requires ChainsOk(nodes, l.order) && p < |nodes| && nodes[p].next == h
    ensures forall i :: 0 <= i < |nodes| && nodes[i].next == h ==> i == p
  {
    forall i | 0 <= i < |nodes| && nodes[i].next == h ensures i == p {
      assert Before(l.order, p, h) && Before(l.order, i, h);
      assert Comparable(l.order, i, p);
    }
  }

  // ---------- what the three placements have in common ----------

  /** The node NewSlot takes for an absent key: its home if that is empty, else the free node. */
  ghost function Consumed(nodes: seq<HashNode>, home: Home, firstfree: nat, key: SQObject): nat {
    if IsLive(nodes, home(key)) then firstfree else home(key)
  }

  ghost predicate SameFreeBut(nodes: seq<HashNode>, nodes': seq<HashNode>, firstfree: nat, consumed: nat) {
    |nodes'| == |nodes| > firstfree
    && forall i :: 0 <= i <= firstfree ==> (IsFree(nodes'[i]) <==> IsFree(nodes[i]) && i != consumed)
  }

  /** The key is in node mp, nothing else is lost, and only one free node was used. */
  ghost predicate Placed(nodes: seq<HashNode>, l: Layout, nodes': seq<HashNode>, l': Layout,
                         home: Home, firstfree: nat, key: SQObject, mp: nat)
  {
    && SameFreeBut(nodes, nodes', firstfree, Consumed(nodes, home, firstfree, key))
    && Consistent(nodes', l', home)
    && UntouchedBelow(nodes', l'.order, home, firstfree)
    && (IsFree(nodes'[firstfree]) ==> UntouchedBelow(nodes', l'.order, home, firstfree + 1))
    && l'.slot.Keys == l.slot.Keys + {key} && l'.slot[key] == mp
    && (forall k :: k in l.slot && l.slot[k] < |nodes| ==> nodes'[l'.slot[k]].val == nodes[l.slot[k]].val)
    && (NoTombstones(nodes, firstfree) ==> NoTombstones(nodes', firstfree))
  }

  lemma AtHomePlaces(nodes: seq<HashNode>, l: Layout, home: Home, h: nat, key: SQObject, f: nat) returns (l': Layout)
    requires Ready(nodes, l, home, f) && key != Null && key !in l.slot
    requires home(key) == h && h < |nodes| && nodes[h].key == Null
    ensures Placed(nodes, l, PlacedAtHome(nodes, h, key), l', home, f, key, h)
  {
    PlaceAtHome(nodes, l, home, h, key, f + 1);
    l' := LayoutAtHome(l, h, key);
    assert UntouchedBelow(PlacedAtHome(nodes, h, key), l'.order, home, f);
  }

  lemma AfterHomePlaces(nodes: seq<HashNode>, l: Layout, home: Home, h: nat, f: nat, key: SQObject) returns (l': Layout)
    requires Ready(nodes, l, home, f) && key != Null && key !in l.slot
    requires home(key) == h && h < |nodes| && nodes[h].key != Null && home(nodes[h].key) == h
    ensures h != f
    ensures Placed(nodes, l, PlacedAfterHome(nodes, h, f, key), l', home, f, key, f)
  {
    PlaceAfterHome(nodes, l, home, h, f, key);
    l' := LayoutAfterHome(nodes, l, h, f, key);
    AfterHomeKeepsRest(nodes, l, home, h, f, key);
  }

  lemma AfterHomeKeepsRest(nodes: seq<HashNode>, l: Layout, home: Home, h: nat, f: nat, key: SQObject)
    requires ChainsOk(nodes, l.order) && SlotsOk(nodes, l.slot) && key !in l.slot && key != Null
    requires home(key) == h && f != h < |nodes| && f < |nodes| && nodes[h].key != Null && IsFree(nodes[f])
    ensures var nodes', l' := PlacedAfterHome(nodes, h, f, key), LayoutAfterHome(nodes, l, h, f, key);
            && SameFreeBut(nodes, nodes', f, Consumed(nodes, home, f, key))
            && l'.slot.Keys == l.slot.Keys + {key} && l'.slot[key] == f
            && (forall k :: k in l.slot ==> nodes'[l'.slot[k]].val == nodes[l.slot[k]].val)
            && (NoTombstones(nodes, f) ==> NoTombstones(nodes', f))
  {
    assert IsLive(nodes, h);
  }

  lemma MovingPlaces(nodes: seq<HashNode>, l: Layout, home: Home, h: nat, f: nat, p: nat, key: SQObject)
    returns (l': Layout)
    requires Ready(nodes, l, home, f) && key != Null && key !in l.slot
    requires home(key) == h && f < h < |nodes| && nodes[h].key != Null && home(nodes[h].key) != h
    requires p < |nodes| && nodes[p].next == h
    ensures p != f && p != h
    ensures Placed(nodes, l, PlacedByMoving(nodes, h, f, p, key), l', home, f, key, h)
  {
    assert Before(l.order, p, h);
    PlaceByMoving(nodes, l, home, h, f, p, key);
    MovingKeepsRest(nodes, l, home, h, f, p, key);
    l' := LayoutByMoving(nodes, l, h, f, key);
  }

  lemma MovingKeepsRest(nodes: seq<HashNode>, l: Layout, home: Home, h: nat, f: nat, p: nat, key: SQObject)
    requires Sized(nodes, l.order) && SlotsOk(nodes, l.slot) && key !in l.slot && key != Null
    requires home(key) == h && f < h < |nodes| && nodes[h].key != Null && IsFree(nodes[f])
    requires p < |nodes| && nodes[p].next == h && p != h
    ensures var nodes', l' := PlacedByMoving(nodes, h, f, p, key), LayoutByMoving(nodes, l, h, f, key);
            && SameFreeBut(nodes, nodes', f, Consumed(nodes, home, f, key))
            && l'.slot.Keys == l.slot.Keys + {key} && l'.slot[key] == h
            && (forall k :: k in l.slot ==> nodes'[l'.slot[k]].val == nodes[l.slot[k]].val)
            && (NoTombstones(nodes, f) ==> NoTombstones(nodes', f))
  {
    assert p != f && IsLive(nodes, h);
    var nodes' := PlacedByMoving(nodes, h, f, p, key);
    assert forall i :: 0 <= i < |nodes| && i != p && i != f && i != h ==> nodes'[i] == nodes[i];
  }

  // ---------- changing a value, and removing a key ----------

  ghost function Stored(nodes: seq<HashNode>, n: nat, val: SQObject): seq<HashNode>
    requires n < |nodes|
  {
    nodes[n := nodes[n].(val := val)]
  }

  lemma StoreKeepsNoTombstones(nodes: seq<HashNode>, n: nat, val: SQObject, firstfree: int)
    requires n < |nodes| && NoTombstones(nodes, firstfree)
    ensures NoTombstones(Stored(nodes, n, val), firstfree)
  {
  }

  lemma StoreKeepsShape(nodes: seq<HashNode>, l: Layout, home: Home, n: nat, val: SQObject, bound: int)
    requires Consistent(nodes, l, home) && UntouchedBelow(nodes, l.order, home, bound) && n < |nodes|
    ensures Consistent(Stored(nodes, n, val), l, home) && UntouchedBelow(Stored(nodes, n, val), l.order, home, bound)
    ensures nodes[n].key != Null ==>
            Bindings(Stored(nodes, n, val), l.slot) == Bindings(nodes, l.slot)[nodes[n].key := val]
    ensures nodes[n].key == Null ==> Bindings(Stored(nodes, n, val), l.slot) == Bindings(nodes, l.slot)
  {
    var nodes' := Stored(nodes, n, val);
    assert forall i :: IsLive(nodes', i) <==> IsLive(nodes, i);
    assert forall i :: 0 <= i < |nodes| ==> nodes'[i].key == nodes[i].key && nodes'[i].next == nodes[i].next;
    assert nodes[n].key != Null ==> IsLive(nodes, n);
  }

  /** A removed key leaves its node linked. */
  ghost function Erased(nodes: seq<HashNode>, n: nat): seq<HashNode>
    requires n < |nodes|
  {
    nodes[n := HashNode(Null, Null, nodes[n].next)]
  }

  lemma EraseKeepsChains(nodes: seq<HashNode>, l: Layout, home: Home, n: nat, bound: int)
    requires ChainsOk(nodes, l.order) && UntouchedBelow(nodes, l.order, home, bound) && n < |nodes|
    ensures var l' := l.(slot := l.slot - {nodes[n].key});
            ChainsOk(Erased(nodes, n), l.order) && UntouchedBelow(Erased(nodes, n), l.order, home, bound)
  {
    var nodes', l' := Erased(nodes, n), l.(slot := l.slot - {nodes[n].key});
    assert forall i :: 0 <= i < |nodes| ==> nodes'[i].next == nodes[i].next;
    assert forall i, j :: Before(l'.order, i, j) <==> Before(l.order, i, j);
    assert forall i :: IsLive(nodes', i) ==> IsLive(nodes, i) && nodes'[i] == nodes[i];
  }

  lemma EraseKeepsRest(nodes: seq<HashNode>, l: Layout, home: Home, n: nat, firstfree: nat)
    requires Ready(nodes, l, home, firstfree) && n < |nodes| && nodes[n].key != Null
    ensures var l' := l.(slot := l.slot - {nodes[n].key});
            && Ready(Erased(nodes, n), l', home, firstfree)
            && Bindings(Erased(nodes, n), l'.slot) == Bindings(nodes, l.slot) - {nodes[n].key}
            && nodes[n].key in l.slot
  {
    var nodes', l' := Erased(nodes, n), l.(slot := l.slot - {nodes[n].key});
    EraseKeepsChains(nodes, l, home, n, firstfree + 1);
    assert IsLive(nodes, n);
    forall i | IsLive(nodes', i)
      ensures IsLive(nodes, i) && nodes'[i] == nodes[i] && nodes[i].key != nodes[n].key
      ensures Reaches(l'.order, home(nodes'[i].key), i)
      ensures var g := home(nodes'[i].key); nodes'[g].key != Null ==> home(nodes'[g].key) == g
    {
      assert IsLive(nodes, i) && i != n;
      var g := home(nodes[i].key);
      assert nodes'[g].key != Null ==> nodes'[g] == nodes[g];
      assert Reaches(l.order, g, i);
    }
    EraseKeepsSlots(nodes, l.slot, n);
  }

  lemma EraseKeepsSlots(nodes: seq<HashNode>, slot: map<SQObject, nat>, n: nat)
    requires SlotsOk(nodes, slot) && n < |nodes| && nodes[n].key != Null
    ensures SlotsOk(Erased(nodes, n), slot - {nodes[n].key})
    ensures Bindings(Erased(nodes, n), slot - {nodes[n].key}) == Bindings(nodes, slot) - {nodes[n].key}
  {
    assert IsLive(nodes, n);
    forall i | IsLive(Erased(nodes, n), i) ensures IsLive(nodes, i) && i != n {}
  }

  lemma FreePointerMoves(nodes: seq<HashNode>, l: Layout, home: Home, was: nat, firstfree: nat)
    requires Consistent(nodes, l, home) && firstfree <= was < |nodes| && IsFree(nodes[firstfree])
    requires UntouchedBelow(nodes, l.order, home, was) && (IsFree(nodes[was]) ==>
                                                           UntouchedBelow(nodes, l.order, home, was + 1))
    requires forall i :: firstfree < i <= was ==> !IsFree(nodes[i])
    ensures Ready(nodes, l, home, firstfree)
    ensures NoTombstones(nodes, was) ==> NoTombstones(nodes, firstfree)
  {
  }

  ghost function EmptyLayout(size: nat): Layout {
    Layout(Order(seq(size, i => i), seq(size, _ => 0)), map[])
  }

  lemma EmptyNodesAreReady(nodes: seq<HashNode>, home: Home)
    requires |nodes| > 0 && forall i :: 0 <= i < |nodes| ==> nodes[i] == HashNode(Null, Null, -1)
    ensures Ready(nodes, EmptyLayout(|nodes|), home, |nodes| - 1)
    ensures Bindings(nodes, map[]) == map[] && NoTombstones(nodes, |nodes| - 1)
  {
  }

  /** What Rehash has put in the new nodes once the first n old nodes are done. */
  ghost function BindingsBelow(nodes: seq<HashNode>, slot: map<SQObject, nat>, n: int): map<SQObject, SQObject>
    requires SlotsOk(nodes, slot)
  {
    map k | k in slot && slot[k] < n :: nodes[slot[k]].val
  }

  lemma OneMoreBelow(nodes: seq<HashNode>, slot: map<SQObject, nat>, n: nat)
    requires SlotsOk(nodes, slot) && n < |nodes|
    ensures nodes[n].key == Null ==> BindingsBelow(nodes, slot, n + 1) == BindingsBelow(nodes, slot, n)
    ensures nodes[n].key != Null ==>
              && BindingsBelow(nodes, slot, n + 1) == BindingsBelow(nodes, slot, n)[nodes[n].key := nodes[n].val]
              && BindingsBelow(nodes, slot, n).Keys <= slot.Keys - {nodes[n].key}
              && nodes[n].key in slot
  {
    if nodes[n].key != Null { assert IsLive(nodes, n); }
  }

  lemma NothingBetween(nodes: seq<HashNode>, slot: map<SQObject, nat>, m: nat, n: nat)
    requires SlotsOk(nodes, slot) && m <= n <= |nodes|
    requires forall i :: m <= i < n ==> nodes[i].key == Null
    ensures BindingsBelow(nodes, slot, n) == BindingsBelow(nodes, slot, m)
    ensures BindingsBelow(nodes, slot, |nodes|) == Bindings(nodes, slot)
  {
  }

  lemma NextBelow(nodes: seq<HashNode>, slot: map<SQObject, nat>, m: nat, pos: nat)
    requires SlotsOk(nodes, slot) && m < pos <= |nodes| && nodes[pos - 1].key != Null
    requires forall i :: m <= i < pos - 1 ==> nodes[i].key == Null
    ensures BindingsBelow(nodes, slot, pos) == BindingsBelow(nodes, slot, m)[nodes[pos - 1].key := nodes[pos - 1].val]
  {
    NothingBetween(nodes, slot, m, pos - 1);
    OneMoreBelow(nodes, slot, pos - 1);
  }

  /** The elements of a set, each once. */
  ghost predicate Enumerates(keys: seq<SQObject>, all: set<SQObject>) {
    && |keys| == |all| && (forall i, j :: 0 <= i < j < |keys| ==> keys[i] != keys[j])
    && (forall k :: k in all <==> k in keys)
  }

  /** The keys and values of a map, each key once. */
  ghost predicate Lists(keys: seq<SQObject>, vals: seq<SQObject>, m: map<SQObject, SQObject>) {
    && Enumerates(keys, m.Keys) && |vals| == |keys|
    && forall i :: 0 <= i < |keys| ==> keys[i] in m && vals[i] == m[keys[i]]
  }

  lemma NothingListed(nodes: seq<HashNode>, slot: map<SQObject, nat>)
    requires SlotsOk(nodes, slot)
    ensures Lists([], [], BindingsBelow(nodes, slot, 0))
  {
    assert BindingsBelow(nodes, slot, 0) == map[];
  }

  lemma NotYetListed(nodes: seq<HashNode>, slot: map<SQObject, nat>, m: nat, pos: nat)
    requires SlotsOk(nodes, slot) && m < pos <= |nodes| && nodes[pos - 1].key != Null
    ensures nodes[pos - 1].key !in BindingsBelow(nodes, slot, m)
  {
    assert IsLive(nodes, pos - 1);
  }

  lemma EnumeratesOneMore(keys: seq<SQObject>, all: set<SQObject>, key: SQObject)
    requires Enumerates(keys, all) && key !in all
    ensures Enumerates(keys + [key], all + {key})
  {
    assert forall k :: k in keys + [key] <==> k in keys || k == key;
  }

  lemma ListsOneMore(keys: seq<SQObject>, vals: seq<SQObject>, m: map<SQObject, SQObject>, key: SQObject, val: SQObject)
    requires Lists(keys, vals, m) && key !in m
    ensures Lists(keys + [key], vals + [val], m[key := val])
  {
    hide Enumerates;
    EnumeratesOneMore(keys, m.Keys, key);
    assert m[key := val].Keys == m.Keys + {key};
  }

  ghost predicate HasSpare(nodes: seq<HashNode>, home: Home, firstfree: nat, key: SQObject) {
    exists i :: 0 <= i <= firstfree && i < |nodes| && IsFree(nodes[i]) && i != Consumed(nodes, home, firstfree, key)
  }

  lemma PlacedKeys(slot: map<SQObject, nat>, slot': map<SQObject, nat>, key: SQObject)
    requires slot'.Keys == slot.Keys + {key} && key !in slot
    ensures |slot'| == |slot| + 1
  {
  }

  lemma PlacedContents(nodes: seq<HashNode>, slot: map<SQObject, nat>, nodes': seq<HashNode>, slot': map<SQObject, nat>,
                       key: SQObject, val: SQObject)
    requires SlotsOk(nodes, slot) && SlotsOk(nodes', slot') && |nodes| == |nodes'|
    requires slot'.Keys == slot.Keys + {key} && key !in slot
    requires forall k :: k in slot ==> nodes'[slot'[k]].val == nodes[slot[k]].val
    ensures Bindings(nodes', slot')[key := val] == Bindings(nodes, slot)[key := val]
  {
  }

  lemma PlacedSpare(nodes: seq<HashNode>, nodes': seq<HashNode>, home: Home, firstfree: nat, key: SQObject)
    requires SameFreeBut(nodes, nodes', firstfree, Consumed(nodes, home, firstfree, key))
    ensures HasSpare(nodes, home, firstfree, key) <==> exists i :: 0 <= i <= firstfree && IsFree(nodes'[i])
  {
    if i :| 0 <= i <= firstfree && IsFree(nodes'[i]) {
      assert IsFree(nodes[i]) && i != Consumed(nodes, home, firstfree, key);
    }
  }
}
