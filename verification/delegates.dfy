/** Delegation between tables. Tables are named by their number, -1 is no table. */
module Delegation {
  import opened Objects

  datatype Found = NotFound | Value(v: SQObject)

  /** Each table of p delegates to the next one. */
  ghost predicate Follows(delegates: seq<int>, p: seq<nat>) {
    && |p| > 0 && (forall k :: 0 <= k < |p| ==> p[k] < |delegates|)
    && forall k :: 0 <= k < |p| - 1 ==> delegates[p[k]] == p[k + 1]
  }

  ghost predicate IsCycle(delegates: seq<int>, p: seq<nat>) {
    |p| > 1 && Follows(delegates, p) && p[0] == p[|p| - 1]
  }

  ghost predicate Acyclic(delegates: seq<int>) {
    forall p :: !IsCycle(delegates, p)
  }

  /** Going from a table to its delegate goes down. */
  ghost predicate Ranked(delegates: seq<int>, rank: seq<nat>) {
    && |rank| == |delegates|
    && forall t :: 0 <= t < |delegates| ==>
       -1 <= delegates[t] < |delegates| && (delegates[t] != -1 ==> rank[delegates[t]] < rank[t])
  }

  lemma {:induction false} PathGoesDown(delegates: seq<int>, rank: seq<nat>, p: seq<nat>)
    requires Ranked(delegates, rank) && Follows(delegates, p) && |p| > 1
    ensures rank[p[|p| - 1]] < rank[p[0]]
    decreases |p|
  {
    assert delegates[p[0]] == p[1];
    if |p| > 2 {
      assert Follows(delegates, p[1..]);
      PathGoesDown(delegates, rank, p[1..]);
    }
  }

  lemma RankedIsAcyclic(delegates: seq<int>, rank: seq<nat>)
    requires Ranked(delegates, rank)
    ensures Acyclic(delegates)
  {
    forall p ensures !IsCycle(delegates, p) {
      if |p| > 1 && Follows(delegates, p) { PathGoesDown(delegates, rank, p); }
    }
  }

  /** A table with its delegate, the delegate's delegate and so on. */
  ghost function Chain(delegates: seq<int>, rank: seq<nat>, t: nat): (c: seq<nat>)
    requires Ranked(delegates, rank) && t < |delegates|
    ensures Follows(delegates, c) && c[0] == t && delegates[c[|c| - 1]] == -1
    decreases rank[t]
  {
    if delegates[t] == -1 then [t] else [t] + Chain(delegates, rank, delegates[t])
  }

  ghost function Highest(rank: seq<nat>): (h: nat)
    ensures forall r :: r in rank ==> r < h
  {
    if rank == [] then 0 else
      var rest := Highest(rank[1..]);
      assert rank == [rank[0]] + rank[1..];
      if rank[0] < rest then rest else rank[0] + 1
  }

  /** The tables that reach self rank above all the others. */
  ghost function Raised(delegates: seq<int>, rank: seq<nat>, self: nat): seq<nat>
    requires Ranked(delegates, rank)
  {
    seq(|rank|, t requires 0 <= t < |rank| => if self in Chain(delegates, rank, t) then rank[t] + Highest(rank)
        else rank[t])
  }

  lemma {:induction false} LinkIsRanked(delegates: seq<int>, rank: seq<nat>, self: nat, mt: nat)
    requires Ranked(delegates, rank) && self < |delegates| && mt < |delegates| && self !in Chain(delegates, rank, mt)
    ensures Ranked(delegates[self := mt], Raised(delegates, rank, self))
  {
    assert forall t :: 0 <= t < |rank| ==> rank[t] in rank;
    assert self in Chain(delegates, rank, self);
  }

  /** x is on the chain of t. */
  ghost predicate Reaches(delegates: seq<int>, rank: seq<nat>, t: int, x: nat)
    requires Ranked(delegates, rank) && t < |delegates|
  {
    t >= 0 && x in Chain(delegates, rank, t)
  }

  lemma ReachesNext(delegates: seq<int>, rank: seq<nat>, t: nat, x: nat)
    requires Ranked(delegates, rank) && t < |delegates|
    ensures Reaches(delegates, rank, t, x) <==> t == x || Reaches(delegates, rank, delegates[t], x)
  {
  }

  /** If the chain of mt holds self, linking self to mt closes a cycle. */
  lemma {:induction false} LinkClosesCycle(delegates: seq<int>, rank: seq<nat>, self: nat, mt: nat)
    requires Ranked(delegates, rank) && self < |delegates| && mt < |delegates| && Reaches(delegates, rank, mt, self)
    ensures !Acyclic(delegates[self := mt])
  {
    var c, d := Chain(delegates, rank, mt), delegates[self := mt];
    var k := FirstPlace(c, self);
    var p := [self] + c[..k + 1];
    forall i | 0 <= i < |p| - 1 ensures d[p[i]] == p[i + 1] {
      if i > 0 { assert p[i] == c[i - 1] && p[i + 1] == c[i] && c[i - 1] != self; }
    }
    assert IsCycle(d, p);
  }

  /** A ranking after self was linked to mt, or unlinked. */
  ghost function Reranked(delegates: seq<int>, rank: seq<nat>, self: nat, mt: int): seq<nat>
    requires Ranked(delegates, rank)
  {
    if mt == -1 then rank else Raised(delegates, rank, self)
  }

  lemma {:induction false} LinkIsFine(delegates: seq<int>, rank: seq<nat>, self: nat, mt: int)
    requires Ranked(delegates, rank) && self < |delegates| && -1 <= mt < |delegates|
    requires !Reaches(delegates, rank, mt, self)
    ensures Ranked(delegates[self := mt], Reranked(delegates, rank, self, mt)) && Acyclic(delegates[self := mt])
  {
    if mt != -1 { LinkIsRanked(delegates, rank, self, mt); }
    RankedIsAcyclic(delegates[self := mt], Reranked(delegates, rank, self, mt));
  }

  lemma {:induction false} FirstPlace(c: seq<nat>, x: nat) returns (k: nat)
    requires x in c
    ensures k < |c| && c[k] == x && x !in c[..k]
    ensures forall i :: 0 <= i < k ==> c[i] != x
  {
    k := 0;
    while c[k] != x
      invariant 0 <= k < |c| && (exists i :: k <= i < |c| && c[i] == x) && forall i :: 0 <= i < k ==> c[i] != x
      decreases |c| - k
    {
      k := k + 1;
    }
  }

  /** The first binding of a key in a list of tables. */
  function FirstBinding(slots: seq<map<SQObject, SQObject>>, c: seq<nat>, key: SQObject): (r: Found)
    requires forall k :: 0 <= k < |c| ==> c[k] < |slots|
    ensures r.NotFound? <==> forall t :: t in c ==> key !in slots[t]
    ensures r.Value? ==>
              exists k :: 0 <= k < |c| && key in slots[c[k]] && slots[c[k]][key] == r.v &&
                forall j :: 0 <= j < k ==> key !in slots[c[j]]
  {
    if c == [] then NotFound
    else if key in slots[c[0]] then Value(slots[c[0]][key])
    else FirstBinding(slots, c[1..], key)
  }

  datatype TableOp = Create(contents: map<SQObject, SQObject>) | Link(self: nat, mt: int)

  predicate Fits(op: TableOp, tables: nat) {
    op.Link? ==> op.self < tables && -1 <= op.mt < tables
  }

  /** A link is made unless it would close a cycle. */
  ghost function Linked(delegates: seq<int>, op: TableOp): seq<int>
    requires Fits(op, |delegates|)
  {
    match op
    case Create(_) => delegates + [-1]
    case Link(self, mt) => if Acyclic(delegates[self := mt]) then delegates[self := mt] else delegates
  }

  /** The operations only name tables there are. */
  ghost predicate AllFit(delegates: seq<int>, ops: seq<TableOp>)
    decreases |ops|
  {
    ops != [] ==> Fits(ops[0], |delegates|) && AllFit(Linked(delegates, ops[0]), ops[1..])
  }

  ghost function LinkedAll(delegates: seq<int>, ops: seq<TableOp>): seq<int>
    requires AllFit(delegates, ops)
    decreases |ops|
  {
    if ops == [] then delegates else LinkedAll(Linked(delegates, ops[0]), ops[1..])
  }

  class SQTables {
    var slots: seq<map<SQObject, SQObject>>
    var delegates: seq<int>
    /** The delegate of every table that has no binding of its own for a key. */
    const defaultDelegate: map<SQObject, SQObject>
    ghost var rank: seq<nat>

    ghost predicate Valid()
      reads this
    {
      |slots| == |delegates| && Ranked(delegates, rank)
    }

    constructor (defaultDelegate: map<SQObject, SQObject>)
      ensures Valid() && delegates == []
    {
      slots, delegates, rank := [], [], [];
      this.defaultDelegate := defaultDelegate;
    }

    method NewTable(contents: map<SQObject, SQObject>) returns (t: nat)
      requires Valid()
      modifies this
      ensures Valid() && t == |old(delegates)| && delegates == old(delegates) + [-1] && slots == old(slots) + [contents]
    {
      t := |delegates|;
      slots, delegates, rank := slots + [contents], delegates + [-1], rank + [0];
    }

    /** Links self to mt, -1 to unlink it. A link that would close a cycle is refused, and no other. */
    method SetDelegate(self: nat, mt: int) returns (ok: bool)
      requires Valid() && self < |delegates| && -1 <= mt < |delegates|
      modifies this
      ensures Valid() && Acyclic(delegates) && slots == old(slots)
      ensures ok <==> Acyclic(old(delegates)[self := mt])
      ensures delegates == if ok then old(delegates)[self := mt] else old(delegates)
    {
      hide Acyclic, Chain, Reranked;
      RankedIsAcyclic(delegates, rank);
      var temp := mt;
      if temp == self {
        ReachesNext(delegates, rank, mt, self);
        LinkClosesCycle(delegates, rank, self, mt);
        return false;
      }
      while temp != -1
        invariant Valid() && delegates == old(delegates) && slots == old(slots) && -1 <= temp < |delegates| &&
                  temp != self
        invariant Reaches(delegates, rank, mt, self) <==> Reaches(delegates, rank, temp, self)
        decreases if temp == -1 then 0 else rank[temp] + 1
      {
        ReachesNext(delegates, rank, temp, self);
        if delegates[temp] == self {
          ReachesNext(delegates, rank, self, self);
          LinkClosesCycle(delegates, rank, self, mt);
          return false;
        }
        temp := delegates[temp];
      }
      LinkIsFine(delegates, rank, self, mt);
      delegates, rank := delegates[self := mt], Reranked(delegates, rank, self, mt);
      ok := true;
    }

    /** Over every run delegation stays free of cycles, and no link is refused without need. */
    method Run(ops: seq<TableOp>)
      requires Valid() && AllFit(delegates, ops)
      modifies this
      ensures Valid() && Acyclic(delegates) && delegates == LinkedAll(old(delegates), ops)
      decreases |ops|
    {
      hide Acyclic;
      RankedIsAcyclic(delegates, rank);
      if ops != [] {
        match ops[0] {
          case Create(contents) => var _ := NewTable(contents);
          case Link(self, mt) => var _ := SetDelegate(self, mt);
        }
        Run(ops[1..]);
      }
    }

    /** A key's value: the first binding along the chain of delegates, else the default delegate's. */
    method Get(self: nat, key: SQObject) returns (dest: Found)
      requires Valid() && self < |delegates|
      ensures var own := FirstBinding(slots, Chain(delegates, rank, self), key);
              dest == if own.Value? then own else if key in defaultDelegate then Value(defaultDelegate[key])
                else NotFound
      decreases rank[self]
    {
      if key in slots[self] {
        return Value(slots[self][key]);
      }
      if delegates[self] != -1 {
        dest := Get(delegates[self], key);
        assert Chain(delegates, rank, self)[1..] == Chain(delegates, rank, delegates[self]);
        if dest.Value? { return; }
      }
      dest := if key in defaultDelegate then Value(defaultDelegate[key]) else NotFound;
    }
  }
}
