/**
 * Singly linked chains through a shared pool of nodes. Node n is followed by node next[n], -1 being the end. Which
 * chain a node is on and how far from the end it is are not stored anywhere: they are what makes the pool well
 * formed.
 */
module LinkedChains {
  /** The chain of a node that is on none. */
  const NOWHERE := -2

  datatype Chains = Chains(place: seq<int>, height: seq<int>)

  predicate On(l: Chains, c: int, n: int) {
    0 <= n < |l.place| && l.place[n] == c
  }

  /** r is the first node of chain c below the height `bound`, -1 if there is none. */
  ghost predicate First(l: Chains, c: int, bound: int, r: int)
    requires |l.place| == |l.height|
  {
    if r == -1 then forall n :: On(l, c, n) ==> l.height[n] >= bound
    else On(l, c, r) && l.height[r] < bound && forall n :: On(l, c, n) && l.height[n] < bound ==>
      l.height[n] <= l.height[r]
  }

  /** Every node is followed by the next lower one of its chain, heights are distinct and below `clock`. */
  ghost predicate Linked(next: seq<int>, l: Chains, clock: int) {
    && |next| == |l.place| == |l.height| && clock >= 0
    && (forall n {:trigger next[n]} :: 0 <= n < |next| && l.place[n] != NOWHERE ==>
        First(l, l.place[n], l.height[n], next[n]))
    && (forall n :: 0 <= n < |next| ==> 0 <= l.height[n] < clock)
    && (forall n, m :: 0 <= n < m < |next| ==> l.height[n] != l.height[m])
  }

  ghost predicate Head(l: Chains, clock: int, c: int, r: int)
    requires |l.place| == |l.height|
  {
    First(l, c, clock, r)
  }

  /** Node n moves to the front of chain c. */
  function MovedTo(l: Chains, n: nat, c: int, clock: int): Chains
    requires n < |l.place| == |l.height|
  {
    Chains(l.place[n := c], l.height[n := clock])
  }

  /** The links after n, which follows p, has moved in front of head. */
  function Relinked(next: seq<int>, p: int, n: nat, head: int): seq<int>
    requires n < |next| && p < |next|
  {
    (if p >= 0 then next[p := next[n]] else next)[n := head]
  }

  lemma MoveKeepsFirst(next: seq<int>, l: Chains, clock: int, p: int, n: nat, c: int, head: int, m: nat)
    requires Linked(next, l, clock) && n < |next| && m < |next| && m != n && m != p && l.place[n] != c &&
             l.place[n] != NOWHERE && l.place[m] != NOWHERE
    requires After(next, l, clock, p, n)
    ensures First(MovedTo(l, n, c, clock), l.place[m], l.height[m], next[m])
  {
    var k := MovedTo(l, n, c, clock);
    var r := next[m];
    assert First(l, l.place[m], l.height[m], r);
    assert p >= 0 ==> First(l, l.place[p], l.height[p], next[p]);
    assert forall j :: On(k, l.place[m], j) && k.height[j] < l.height[m] ==> On(l, l.place[m], j) && j != n;
  }

  /** n is on chain l.place[n], after p or at its head. */
  ghost predicate After(next: seq<int>, l: Chains, clock: int, p: int, n: nat)
    requires n < |next| == |l.place| == |l.height|
  {
    if p == -1 then Head(l, clock, l.place[n], n)
    else 0 <= p < |next| && p != n && l.place[p] == l.place[n] && next[p] == n
  }

  lemma MovedFirst(next: seq<int>, l: Chains, clock: int, p: int, n: nat, c: int, head: int)
    requires Linked(next, l, clock) && n < |next| && l.place[n] != c && l.place[n] != NOWHERE && c != NOWHERE &&
             Head(l, clock, c, head)
    requires After(next, l, clock, p, n)
    ensures First(MovedTo(l, n, c, clock), c, clock, head) &&
            (p >= 0 ==> First(MovedTo(l, n, c, clock), l.place[p], l.height[p], next[n]))
  {
    var k := MovedTo(l, n, c, clock);
    assert First(l, l.place[n], l.height[n], next[n]);
    if p >= 0 { assert First(l, l.place[p], l.height[p], next[p]); }
  }

  lemma MovedHeads(next: seq<int>, l: Chains, clock: int, p: int, n: nat, c: int, d: int, h: int)
    requires Linked(next, l, clock) && n < |next| && l.place[n] != c && l.place[n] != NOWHERE && c != NOWHERE &&
             After(next, l, clock, p, n)
    ensures Head(MovedTo(l, n, c, clock), clock + 1, c, n)
    ensures p == -1 ==> Head(MovedTo(l, n, c, clock), clock + 1, l.place[n], next[n])
    ensures d != c && Head(l, clock, d, h) && h != n ==> Head(MovedTo(l, n, c, clock), clock + 1, d, h)
  {
    assert First(l, l.place[n], l.height[n], next[n]);
  }

  /** Moving a node to the front of another chain keeps both chains and all others in order. */
  lemma MoveKeepsLinked(next: seq<int>, l: Chains, clock: int, p: int, n: nat, c: int, head: int)
    requires Linked(next, l, clock) && n < |next| && l.place[n] != c && l.place[n] != NOWHERE && c != NOWHERE &&
             Head(l, clock, c, head)
    requires After(next, l, clock, p, n)
    ensures Linked(Relinked(next, p, n, head), MovedTo(l, n, c, clock), clock + 1)
  {
    var k, next' := MovedTo(l, n, c, clock), Relinked(next, p, n, head);
    MovedFirst(next, l, clock, p, n, c, head);
    forall m | 0 <= m < |next'| && k.place[m] != NOWHERE ensures First(k, k.place[m], k.height[m], next'[m]) {
      if m != n && m != p { MoveKeepsFirst(next, l, clock, p, n, c, head, m); }
    }
  }

  lemma AppendKeepsFirst(l: Chains, clock: int, c: int, d: int, bound: int, r: int)
    requires |l.place| == |l.height| && First(l, d, bound, r) && (d == c ==> bound <= clock)
    ensures First(Chains(l.place + [c], l.height + [clock]), d, bound, r)
  {
    var k := Chains(l.place + [c], l.height + [clock]);
    assert forall j :: On(k, d, j) <==> On(l, d, j) || (d == c && j == |l.place|);
  }

  /** A new node at the front of chain c. */
  lemma AppendKeepsLinked(next: seq<int>, l: Chains, clock: int, c: int, head: int)
    requires Linked(next, l, clock) && c != NOWHERE && Head(l, clock, c, head)
    ensures var k := Chains(l.place + [c], l.height + [clock]);
            && Linked(next + [head], k, clock + 1) && Head(k, clock + 1, c, |next|)
            && forall d, h :: d != c && Head(l, clock, d, h) ==> Head(k, clock + 1, d, h)
  {
    hide First;
    var k := Chains(l.place + [c], l.height + [clock]);
    forall n | 0 <= n < |next + [head]| && k.place[n] != NOWHERE
      ensures First(k, k.place[n], k.height[n], (next + [head])[n]) {
      if n < |next| {
        assert First(l, l.place[n], l.height[n], next[n]);
        AppendKeepsFirst(l, clock, c, l.place[n], l.height[n], next[n]);
      } else {
        AppendKeepsFirst(l, clock, c, c, clock, head);
      }
    }
    AppendedIsHead(l, clock, c);
    forall d, h | d != c && Head(l, clock, d, h) ensures Head(k, clock + 1, d, h) {
      AppendedIsHigher(l, clock, c, d, h);
    }
  }

  lemma AppendedIsHead(l: Chains, clock: int, c: int)
    requires |l.place| == |l.height| && forall n :: 0 <= n < |l.height| ==> l.height[n] < clock
    ensures Head(Chains(l.place + [c], l.height + [clock]), clock + 1, c, |l.place|)
  {
  }

  lemma AppendedIsHigher(l: Chains, clock: int, c: int, d: int, h: int)
    requires |l.place| == |l.height| && forall n :: 0 <= n < |l.height| ==> l.height[n] < clock
    requires d != c && Head(l, clock, d, h)
    ensures Head(Chains(l.place + [c], l.height + [clock]), clock + 1, d, h)
  {
    var k := Chains(l.place + [c], l.height + [clock]);
    assert forall j :: On(k, d, j) <==> On(l, d, j);
  }

  function Without(l: Chains, n: nat): Chains
    requires n < |l.place|
  {
    Chains(l.place[n := NOWHERE], l.height)
  }

  lemma UnlinkKeepsFirst(l: Chains, n: nat, c: int, bound: int, r: int)
    requires |l.place| == |l.height| && n < |l.place| && c != NOWHERE && First(l, c, bound, r) && r != n
    ensures First(Without(l, n), c, bound, r)
  {
    assert forall j :: On(Without(l, n), c, j) <==> On(l, c, j) && j != n;
  }

  lemma UnlinkedFirst(l: Chains, n: nat, bound: int, r: int)
    requires |l.place| == |l.height| && n < |l.place| && l.place[n] != NOWHERE
    requires First(l, l.place[n], bound, n) && First(l, l.place[n], l.height[n], r)
    requires forall j :: 0 <= j < |l.place| && j != n ==> l.height[j] != l.height[n]
    ensures First(Without(l, n), l.place[n], bound, r)
  {
    assert forall j :: On(Without(l, n), l.place[n], j) <==> On(l, l.place[n], j) && j != n;
  }

  /** Node n, after p, leaves its chain. */
  lemma UnlinkKeepsLinked(next: seq<int>, l: Chains, clock: int, p: int, n: nat)
    requires Linked(next, l, clock) && n < |next| && l.place[n] != NOWHERE && After(next, l, clock, p, n)
    ensures var k := Without(l, n);
            && Linked(if p >= 0 then next[p := next[n]] else next, k, clock)
            && (p == -1 ==> Head(k, clock, l.place[n], next[n]))
            && forall d, h :: d != NOWHERE && Head(l, clock, d, h) && h != n ==> Head(k, clock, d, h)
  {
    hide First, On;
    var k := Without(l, n);
    var next' := if p >= 0 then next[p := next[n]] else next;
    assert First(l, l.place[n], l.height[n], next[n]);
    assert p >= 0 ==> First(l, l.place[p], l.height[p], next[p]);
    UnlinkedFirst(l, n, if p >= 0 then l.height[p] else clock, next[n]);
    forall m | 0 <= m < |next| && k.place[m] != NOWHERE ensures First(k, k.place[m], k.height[m], next'[m]) {
      assert First(l, l.place[m], l.height[m], next[m]);
      if m != p {
        OnlyOneBefore(next, l, clock, p, n, m);
        UnlinkKeepsFirst(l, n, l.place[m], l.height[m], next[m]);
      }
    }
    forall d, h | d != NOWHERE && Head(l, clock, d, h) && h != n ensures Head(k, clock, d, h) {
      UnlinkKeepsFirst(l, n, d, clock, h);
    }
  }

  /** No node but p is followed by n. */
  lemma OnlyOneBefore(next: seq<int>, l: Chains, clock: int, p: int, n: nat, m: nat)
    requires Linked(next, l, clock) && n < |next| && m < |next| && l.place[n] != NOWHERE && After(next, l, clock, p, n)
    requires l.place[m] != NOWHERE && m != p
    ensures next[m] != n
  {
    assert First(l, l.place[m], l.height[m], next[m]);
    assert p >= 0 ==> First(l, l.place[p], l.height[p], next[p]);
  }

  function Renumbered(place: seq<int>, shift: int): seq<int> {
    seq(|place|, n requires 0 <= n < |place| => if place[n] == NOWHERE then NOWHERE else place[n] - shift)
  }

  /** Only the names of the chains change. */
  lemma RenumberKeepsLinked(next: seq<int>, l: Chains, clock: int, shift: int)
    requires Linked(next, l, clock) && shift >= 0 && forall n :: 0 <= n < |next| && l.place[n] != NOWHERE ==>
             l.place[n] >= shift
    ensures var k := Chains(Renumbered(l.place, shift), l.height);
            Linked(next, k, clock) && forall c, h :: c >= 0 && Head(l, clock, c + shift, h) ==> Head(k, clock, c, h)
  {
    var k := Chains(Renumbered(l.place, shift), l.height);
    forall n | 0 <= n < |next| && k.place[n] != NOWHERE ensures First(k, k.place[n], k.height[n], next[n]) {
      RenumberKeepsFirst(l, shift, k.place[n], k.height[n], next[n]);
    }
    forall c, h | c >= 0 && Head(l, clock, c + shift, h) ensures Head(k, clock, c, h) {
      RenumberKeepsFirst(l, shift, c, clock, h);
    }
  }

  lemma RenumberKeepsFirst(l: Chains, shift: int, c: int, bound: int, r: int)
    requires |l.place| == |l.height| && c >= 0 && shift >= 0 && First(l, c + shift, bound, r)
    ensures First(Chains(Renumbered(l.place, shift), l.height), c, bound, r)
  {
    var k := Chains(Renumbered(l.place, shift), l.height);
    forall j ensures On(k, c, j) == On(l, c + shift, j) {
    }
  }

  // ---------- walking a chain ----------

  /** The nodes of chain c below a height start with r. */
  ghost predicate Within(next: seq<int>, l: Chains, c: int, bound: int, r: int) {
    |l.place| == |l.height| == |next| && First(l, c, bound, r) && bound >= 0 && (r >= 0 ==> l.height[r] >= 0)
  }

  /** A walk starts at the head, before which nothing is. */
  lemma WalkStarts(next: seq<int>, l: Chains, clock: int, c: int, r: int)
    requires Linked(next, l, clock) && Head(l, clock, c, r)
    ensures Within(next, l, c, clock, r) && (r >= 0 ==> After(next, l, clock, -1, r))
    ensures forall n :: On(l, c, n) ==> l.height[n] < clock
  {
  }

  /** It goes on below n, skipping nothing. */
  lemma WalkGoesOn(next: seq<int>, l: Chains, clock: int, c: int, n: int)
    requires Linked(next, l, clock) && c != NOWHERE && On(l, c, n)
    ensures Within(next, l, c, l.height[n], next[n])
    ensures next[n] >= 0 ==> After(next, l, clock, n, next[n])
    ensures forall m :: On(l, c, m) && l.height[m] >= l.height[n] && m != n ==> l.height[m] > l.height[n]
  {
    assert First(l, c, l.height[n], next[n]);
  }
}
