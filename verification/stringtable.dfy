/** The table of interned strings: every live string of the runtime, once. */
module StringTable {
  import opened LinkedChains

  /** A string object: its contents, their hash and the next string of its bucket. */
  datatype SQString = SQString(val: string, hash: nat, next: int)

  type StringHash = string -> nat

  function Nexts(pool: seq<SQString>): seq<int> {
    seq(|pool|, n requires 0 <= n < |pool| => pool[n].next)
  }

  predicate IsLive(l: Chains, n: int) {
    0 <= n < |l.place| && l.place[n] != NOWHERE
  }

  ghost function LiveSet(l: Chains): set<nat> {
    set n: nat | n < |l.place| && IsLive(l, n)
  }

  /** Strings know their hash, and no two live ones have equal contents. */
  ghost predicate Interned(hashstr: StringHash, pool: seq<SQString>, l: Chains) {
    && |pool| == |l.place|
    && (forall n :: 0 <= n < |pool| ==> pool[n].hash == hashstr(pool[n].val))
    && (forall n, m {:trigger IsLive(l, n), IsLive(l, m)} ::
          IsLive(l, n) && IsLive(l, m) && pool[n].val == pool[m].val ==> n == m)
  }

  /** Every live string is on the chain of its bucket. */
  ghost predicate Stored(pool: seq<SQString>, strings: seq<int>, l: Chains, clock: int) {
    && |strings| > 0 && Linked(Nexts(pool), l, clock)
    && (forall b :: 0 <= b < |strings| ==> Head(l, clock, b, strings[b]))
    && (forall n :: IsLive(l, n) ==> l.place[n] == pool[n].hash % |strings|)
  }

  /** What happens to strings: one with the given contents is asked for, or the one there is goes away. */
  datatype StringOp = Intern(val: string) | Drop(val: string)

  /** The contents that are alive after some operations. */
  function Alive(vals: set<string>, ops: seq<StringOp>): set<string> {
    if ops == [] then vals
    else
      var before := Alive(vals, ops[..|ops| - 1]);
      match ops[|ops| - 1]
      case Intern(val) => before + {val}
      case Drop(val) => before - {val}
  }

  class SQStringTable {
    const hashstr: StringHash
    /** All string objects ever created, by their addresses. */
    var pool: seq<SQString>
    var strings: seq<int>
    var numofslots: nat
    var slotused: nat
    ghost var layout: Chains
    ghost var clock: int

    ghost predicate Valid()
      reads this
    {
      && Interned(hashstr, pool, layout) && Stored(pool, strings, layout, clock)
      && numofslots == |strings| > 0 && slotused == |LiveSet(layout)|
    }

    ghost predicate Live(n: int)
      reads this
    {
      IsLive(layout, n)
    }

    ghost function Contents(): set<string>
      requires Valid()
      reads this
    {
      Vals(pool, LiveSet(layout))
    }

    /** One string for each of the contents, and as many slots in use. */
    lemma OneStringForEach()
      requires Valid()
      ensures slotused == |Contents()|
    {
      OneForEach(pool, LiveSet(layout));
    }

    constructor (hashstr: StringHash)
      ensures Valid() && pool == [] && this.hashstr == hashstr
    {
      this.hashstr := hashstr;
      pool, strings, numofslots, slotused := [], seq(4, _ => -1), 4, 0;
      layout, clock := Chains([], []), 0;
    }

    /** The live string with the given contents, and the one before it in its bucket. */
    method Find(news: string) returns (s: int)
      requires Valid()
      ensures -1 <= s < |pool| && (s >= 0 ==> Live(s) && pool[s].val == news)
      ensures s == -1 ==> forall n :: Live(n) ==> pool[n].val != news
    {
      hide Stored, Linked, Head, After;
      var h := hashstr(news) % numofslots;
      BucketIsChain(pool, strings, layout, clock, h);
      WalkStarts(Nexts(pool), layout, clock, h, strings[h]);
      s := strings[h];
      ghost var bound := clock;
      while s != -1
        invariant Within(Nexts(pool), layout, h, bound, s)
        invariant forall n :: On(layout, h, n) && layout.height[n] >= bound ==> pool[n].val != news
        decreases bound
      {
        if pool[s].val == news { return; }
        WalkGoesOn(Nexts(pool), layout, clock, h, s);
        bound := layout.height[s];
        s := pool[s].next;
      }
      NotInBucket(hashstr, pool, strings, layout, clock, news, bound);
    }

    /** The string with the given contents: the live one there is, or a new one. */
    method Add(news: string) returns (s: nat)
      requires Valid()
      modifies this
      ensures Valid() && s < |pool| && pool[s].val == news && Live(s)
      ensures |old(pool)| <= |pool| && forall n :: 0 <= n < |old(pool)| ==> pool[n].val == old(pool)[n].val
      ensures forall n :: Live(n) <==> old(Live(n)) || n == s
      ensures old(Live(s)) <==> exists n :: old(Live(n)) && old(pool)[n].val == news
      ensures !old(Live(s)) ==> s == |old(pool)|
    {
      hide Stored;
      var found := Find(news);
      if found != -1 {
        return found;
      }
      s := Insert(news);
      if slotused > numofslots {
        Resize(numofslots * 2);
      }
    }

    method Insert(news: string) returns (s: nat)
      requires Valid() && forall n :: Live(n) ==> pool[n].val != news
      modifies this
      ensures Valid() && s == |old(pool)| && |pool| == s + 1 && pool[s].val == news && Live(s) && pool[..s] == old(pool)
      ensures forall n :: Live(n) <==> old(Live(n)) || n == s
      ensures !old(Live(s))
    {
      hide Stored, Interned;
      var newhash := hashstr(news);
      var h := newhash % numofslots;
      s := |pool|;
      AddKeepsStored(hashstr, pool, strings, layout, clock, news);
      pool := pool + [SQString(news, newhash, strings[h])];
      strings := strings[h := s];
      layout, clock := Chains(layout.place + [h], layout.height + [clock]), clock + 1;
      assert LiveSet(layout) == LiveSet(old(layout)) + {s};
      slotused := slotused + 1;
    }

    /** Takes a string that is going away out of the table. */
    method Remove(bs: nat)
      requires Valid() && Live(bs)
      modifies this
      ensures Valid() && |pool| == |old(pool)| && forall n :: Live(n) <==> old(Live(n)) && n != bs
      ensures forall n :: 0 <= n < |pool| ==> pool[n].val == old(pool)[n].val
    {
      hide Stored;
      var h := pool[bs].hash % numofslots;
      var prev := Before(bs, h);
      RemoveKeepsStored(hashstr, pool, strings, layout, clock, prev, bs);
      if prev != -1 {
        pool := pool[prev := pool[prev].(next := pool[bs].next)];
      } else {
        strings := strings[h := pool[bs].next];
      }
      layout := Chains(layout.place[bs := NOWHERE], layout.height);
      assert LiveSet(layout) == LiveSet(old(layout)) - {bs};
      assert bs in LiveSet(old(layout));
      slotused := slotused - 1;
    }

    /** The string before bs in bucket h. */
    method Before(bs: nat, h: nat) returns (prev: int)
      requires Valid() && Live(bs) && h == pool[bs].hash % numofslots
      ensures -1 <= prev < |pool| && After(Nexts(pool), layout, clock, prev, bs)
    {
      hide Stored, Linked, Head, After;
      BucketIsChain(pool, strings, layout, clock, h);
      WalkStarts(Nexts(pool), layout, clock, h, strings[h]);
      OnItsBucket(pool, strings, layout, clock, bs);
      var s := strings[h];
      prev := -1;
      ghost var bound := clock;
      while s != bs
        invariant Within(Nexts(pool), layout, h, bound, s) && On(layout, h, bs) && layout.height[bs] < bound
        invariant s >= 0 ==> -1 <= prev < |pool| && After(Nexts(pool), layout, clock, prev, s)
        decreases bound
      {
        WalkGoesOn(Nexts(pool), layout, clock, h, s);
        bound := layout.height[s];
        prev := s;
        s := pool[s].next;
      }
    }

    /** Rehashes every string into a bigger table. */
    method Resize(size: nat)
      requires Valid() && size > 0
      modifies this
      ensures Valid() && numofslots == size && slotused == old(slotused)
      ensures |pool| == |old(pool)| && forall n :: 0 <= n < |pool| ==> pool[n].val == old(pool)[n].val
      ensures forall n :: Live(n) <==> old(Live(n))
    {
      hide Rehashing, Stored;
      var oldsize, oldtable := numofslots, strings;
      strings, numofslots := seq(size, _ => -1), size;
      RehashStarts(pool, oldtable, strings, layout, clock);
      var i := 0;
      while i < oldsize
        invariant 0 <= i <= oldsize == |oldtable| && |strings| == size == numofslots && slotused == old(slotused)
        invariant Rehashing(pool, oldtable, strings, layout, clock, i) && SamePool(old(pool), old(layout), pool, layout)
        invariant i < oldsize ==> StartsWith(layout, clock, i, oldtable[i])
      {
        MoveBucket(oldtable, i, old(pool), old(layout));
        RehashNext(pool, oldtable, strings, layout, clock, i);
        i := i + 1;
      }
      RehashEnds(pool, oldtable, strings, layout, clock);
      SameInterned(hashstr, old(pool), old(layout), pool, layout);
      ghost var renumbered := Chains(Renumbered(layout.place, oldsize), layout.height);
      SameInterned(hashstr, pool, layout, pool, renumbered);
      layout := renumbered;
      assert LiveSet(layout) == LiveSet(old(layout));
    }

    method Do(op: StringOp)
      requires Valid()
      modifies this
      ensures Valid() && Contents() == Alive(old(Contents()), [op])
    {
      hide Stored, Vals;
      assert Alive(Contents(), []) == Contents() && [op][..0] == [];
      match op
      case Intern(val) =>
        var s := Add(val);
        forall n ensures IsLive(layout, n) <==> IsLive(old(layout), n) || n == s {
          assert Live(n) <==> old(Live(n)) || n == s;
        }
        ValsGain(old(pool), old(layout), pool, layout, s);
      case Drop(val) =>
        var s := Find(val);
        if s != -1 {
          Remove(s);
          forall n ensures IsLive(layout, n) <==> IsLive(old(layout), n) && n != s {
            assert Live(n) <==> old(Live(n)) && n != s;
          }
          ValsLose(old(pool), old(layout), pool, layout, s);
        } else {
          ValsLack(pool, layout, val);
        }
    }

    /** Over every run the table holds exactly the contents that were asked for and did not go away since. */
    method Run(ops: seq<StringOp>)
      requires Valid()
      modifies this
      ensures Valid() && Contents() == Alive(old(Contents()), ops) && slotused == |Contents()|
    {
      for i := 0 to |ops|
        invariant Valid() && Contents() == Alive(old(Contents()), ops[..i])
      {
        Do(ops[i]);
        assert ops[..i + 1][..i] == ops[..i];
      }
      assert ops[..|ops|] == ops;
      OneStringForEach();
    }

    method MoveBucket(oldtable: seq<int>, i: nat, ghost pool0: seq<SQString>, ghost layout0: Chains)
      requires i < |oldtable| && |strings| == numofslots > 0
      requires Rehashing(pool, oldtable, strings, layout, clock, i) && StartsWith(layout, clock, i, oldtable[i]) &&
               SamePool(pool0, layout0, pool, layout)
      modifies this
      ensures |strings| == numofslots == old(numofslots) && slotused == old(slotused)
      ensures Rehashing(pool, oldtable, strings, layout, clock, i) && StartsWith(layout, clock, i, -1) &&
              SamePool(pool0, layout0, pool, layout)
    {
      hide Rehashing;
      var p := oldtable[i];
      while p != -1
        invariant |strings| == numofslots == old(numofslots) && slotused == old(slotused)
        invariant Rehashing(pool, oldtable, strings, layout, clock, i) && StartsWith(layout, clock, i, p) &&
                  SamePool(pool0, layout0, pool, layout)
        decreases if p == -1 then 0 else layout.height[p] + 1
      {
        RehashStep(pool, oldtable, strings, layout, clock, i, p);
        var next := pool[p].next;
        var h := pool[p].hash % numofslots;
        pool := pool[p := pool[p].(next := strings[h])];
        strings := strings[h := p];
        layout, clock := MovedTo(layout, p, |oldtable| + h, clock), clock + 1;
        p := next;
      }
    }
  }

  ghost function Vals(pool: seq<SQString>, live: set<nat>): set<string>
    requires forall n :: n in live ==> n < |pool|
  {
    set n | n in live :: pool[n].val
  }

  lemma {:induction false} OneForEach(pool: seq<SQString>, live: set<nat>)
    requires forall n :: n in live ==> n < |pool|
    requires forall n, m :: n in live && m in live && pool[n].val == pool[m].val ==> n == m
    ensures |live| == |Vals(pool, live)|
    decreases live
  {
    if live == {} {
      assert Vals(pool, live) == {};
    } else {
      var x :| x in live;
      OneForEach(pool, live - {x});
      assert Vals(pool, live - {x}) == Vals(pool, live) - {pool[x].val};
    }
  }

  /** Only s came to life. */
  lemma ValsGain(pool: seq<SQString>, l: Chains, pool': seq<SQString>, l': Chains, s: nat)
    requires |l.place| == |pool| <= |pool'| == |l'.place| && s < |pool'|
    requires forall n :: 0 <= n < |pool| ==> pool'[n].val == pool[n].val
    requires forall n :: IsLive(l', n) <==> IsLive(l, n) || n == s
    ensures Vals(pool', LiveSet(l')) == Vals(pool, LiveSet(l)) + {pool'[s].val}
  {
    assert LiveSet(l') == LiveSet(l) + {s};
  }

  /** Only s died. */
  lemma ValsLose(pool: seq<SQString>, l: Chains, pool': seq<SQString>, l': Chains, s: nat)
    requires |l.place| == |pool| == |pool'| == |l'.place| && IsLive(l, s)
    requires forall n :: 0 <= n < |pool| ==> pool'[n].val == pool[n].val
    requires forall n :: IsLive(l, n) && pool[n].val == pool[s].val ==> n == s
    requires forall n :: IsLive(l', n) <==> IsLive(l, n) && n != s
    ensures Vals(pool', LiveSet(l')) == Vals(pool, LiveSet(l)) - {pool[s].val}
  {
    assert LiveSet(l') == LiveSet(l) - {s};
  }

  /** Contents that no live string has. */
  lemma ValsLack(pool: seq<SQString>, l: Chains, val: string)
    requires |l.place| == |pool| && forall n :: IsLive(l, n) ==> pool[n].val != val
    ensures val !in Vals(pool, LiveSet(l))
  {
  }

  // ---------- walking a bucket ----------

  lemma BucketIsChain(pool: seq<SQString>, strings: seq<int>, l: Chains, clock: int, h: nat)
    requires Stored(pool, strings, l, clock) && h < |strings|
    ensures |pool| == |l.place| == |l.height| && Linked(Nexts(pool), l, clock) && Head(l, clock, h, strings[h])
  {
  }

  lemma OnItsBucket(pool: seq<SQString>, strings: seq<int>, l: Chains, clock: int, s: nat)
    requires Stored(pool, strings, l, clock) && IsLive(l, s)
    ensures s < |pool| && On(l, pool[s].hash % |strings|, s)
  {
  }

  lemma NotInBucket(hashstr: StringHash, pool: seq<SQString>, strings: seq<int>, l: Chains, clock: int, news: string,
                    bound: int)
    requires Stored(pool, strings, l, clock) && Interned(hashstr, pool, l)
    requires First(l, hashstr(news) % |strings|, bound, -1)
    requires forall n :: On(l, hashstr(news) % |strings|, n) && l.height[n] >= bound ==> pool[n].val != news
    ensures forall n :: IsLive(l, n) ==> pool[n].val != news
  {
    forall n | IsLive(l, n) ensures pool[n].val != news {
      assert pool[n].val == news ==> On(l, hashstr(news) % |strings|, n);
    }
  }

  // ---------- adding and removing ----------

  lemma AddKeepsStored(hashstr: StringHash, pool: seq<SQString>, strings: seq<int>, l: Chains, clock: int, news: string)
    requires Stored(pool, strings, l, clock) && Interned(hashstr, pool, l) && forall n :: IsLive(l, n) ==>
             pool[n].val != news
    ensures var h := hashstr(news) % |strings|;
            var pool' := pool + [SQString(news, hashstr(news), strings[h])];
            var l' := Chains(l.place + [h], l.height + [clock]);
            Stored(pool', strings[h := |pool|], l', clock + 1) && Interned(hashstr, pool', l')
  {
    var h := hashstr(news) % |strings|;
    var pool' := pool + [SQString(news, hashstr(news), strings[h])];
    var l', strings' := Chains(l.place + [h], l.height + [clock]), strings[h := |pool|];
    AppendKeepsLinked(Nexts(pool), l, clock, h, strings[h]);
    assert Nexts(pool') == Nexts(pool) + [strings[h]];
    forall b | 0 <= b < |strings'| ensures Head(l', clock + 1, b, strings'[b]) {
      assert b != h ==> Head(l, clock, b, strings[b]);
    }
    assert forall n :: IsLive(l', n) <==> IsLive(l, n) || n == |pool|;
  }

  lemma RemoveKeepsStored(hashstr: StringHash, pool: seq<SQString>, strings: seq<int>, l: Chains, clock: int, prev: int,
                          s: nat)
    requires Stored(pool, strings, l, clock) && Interned(hashstr, pool, l) && IsLive(l, s)
    requires -1 <= prev < |pool| && After(Nexts(pool), l, clock, prev, s)
    ensures var h := pool[s].hash % |strings|;
            var pool' := if prev >= 0 then pool[prev := pool[prev].(next := pool[s].next)] else pool;
            var l' := Chains(l.place[s := NOWHERE], l.height);
            Stored(pool', if prev >= 0 then strings else strings[h := pool[s].next], l', clock) &&
              Interned(hashstr, pool', l')
  {
    var h := pool[s].hash % |strings|;
    var pool' := if prev >= 0 then pool[prev := pool[prev].(next := pool[s].next)] else pool;
    var l', strings' := Chains(l.place[s := NOWHERE], l.height),
      if prev >= 0 then strings else strings[h := pool[s].next];
    UnlinkKeepsLinked(Nexts(pool), l, clock, prev, s);
    assert Nexts(pool') == if prev >= 0 then Nexts(pool)[prev := Nexts(pool)[s]] else Nexts(pool);
    assert prev >= 0 ==> First(l, l.place[prev], l.height[prev], Nexts(pool)[prev]);
    forall b | 0 <= b < |strings'| ensures Head(l', clock, b, strings'[b]) {
      assert Head(l, clock, b, strings[b]);
      assert strings[b] == s ==> On(l, b, s);
    }
    assert forall n :: IsLive(l', n) <==> IsLive(l, n) && n != s;
  }

  // ---------- rehashing ----------

  /** Contents, hashes and life are the same. */
  ghost predicate SamePool(pool0: seq<SQString>, l0: Chains, pool: seq<SQString>, l: Chains) {
    && |pool| == |pool0| == |l0.place| == |l.place|
    && (forall n :: 0 <= n < |pool| ==> pool[n].val == pool0[n].val && pool[n].hash == pool0[n].hash)
    && (forall n :: IsLive(l, n) <==> IsLive(l0, n))
  }

  /**
   * The buckets of the old table below i are empty, those above i are untouched. Bucket b of the new table is chain
   * |old| + b, and every string is on its new chain or still on an old one.
   */
  ghost predicate Rehashing(pool: seq<SQString>, oldtable: seq<int>, strings: seq<int>, l: Chains, clock: int, i: nat) {
    && |strings| > 0 && i <= |oldtable| && Linked(Nexts(pool), l, clock)
    && (forall b :: 0 <= b < |strings| ==> HeadIs(l, clock, |oldtable|, strings, b))
    && (forall c :: i < c < |oldtable| ==> HeadIs(l, clock, 0, oldtable, c))
    && (forall n :: IsLive(l, n) ==>
        i <= l.place[n] < |oldtable| || l.place[n] == |oldtable| + pool[n].hash % |strings|)
  }

  /** Bucket b of a table whose buckets are the chains from `first` on. */
  ghost predicate HeadIs(l: Chains, clock: int, first: nat, table: seq<int>, b: int)
    requires 0 <= b < |table|
  {
    StartsWith(l, clock, first + b, table[b])
  }

  ghost predicate StartsWith(l: Chains, clock: int, c: int, p: int) {
    |l.place| == |l.height| && Head(l, clock, c, p) && (p >= 0 ==> l.height[p] >= 0)
  }

  lemma RehashStarts(pool: seq<SQString>, oldtable: seq<int>, strings: seq<int>, l: Chains, clock: int)
    requires Stored(pool, oldtable, l, clock) && |strings| > 0 && forall b :: 0 <= b < |strings| ==> strings[b] == -1
    ensures Rehashing(pool, oldtable, strings, l, clock, 0) && StartsWith(l, clock, 0, oldtable[0])
  {
    forall b | 0 <= b < |strings| ensures HeadIs(l, clock, |oldtable|, strings, b) {
      NothingOn(pool, oldtable, l, clock, |oldtable| + b);
    }
  }

  lemma NothingOn(pool: seq<SQString>, oldtable: seq<int>, l: Chains, clock: int, c: nat)
    requires Stored(pool, oldtable, l, clock) && c >= |oldtable|
    ensures StartsWith(l, clock, c, -1)
  {
    forall n ensures !On(l, c, n) {
      assert On(l, c, n) ==> IsLive(l, n);
    }
  }

  /** The string p at the head of old bucket i can be moved to the front of its new bucket. */
  lemma CanMove(pool: seq<SQString>, oldtable: seq<int>, strings: seq<int>, l: Chains, clock: int, i: nat, p: nat)
    requires Rehashing(pool, oldtable, strings, l, clock, i) && i < |oldtable| && StartsWith(l, clock, i, p)
    ensures p < |pool| == |l.height| == |l.place| && l.place[p] == i && Linked(Nexts(pool), l, clock) &&
            After(Nexts(pool), l, clock, -1, p)
    ensures -1 <= pool[p].next < |pool| && (pool[p].next >= 0 ==> 0 <= l.height[pool[p].next] < l.height[p])
    ensures var h := pool[p].hash % |strings|; Head(l, clock, |oldtable| + h, strings[h])
  {
    assert First(l, i, l.height[p], Nexts(pool)[p]);
    assert HeadIs(l, clock, |oldtable|, strings, pool[p].hash % |strings|);
  }

  lemma RehashStep(pool: seq<SQString>, oldtable: seq<int>, strings: seq<int>, l: Chains, clock: int, i: nat, p: nat)
    requires Rehashing(pool, oldtable, strings, l, clock, i) && i < |oldtable| && StartsWith(l, clock, i, p)
    ensures p < |pool| == |l.height| && -1 <= pool[p].next < |pool| &&
            (pool[p].next >= 0 ==> 0 <= l.height[pool[p].next] < l.height[p])
    ensures var h := pool[p].hash % |strings|;
            var l' := MovedTo(l, p, |oldtable| + h, clock);
            && Rehashing(pool[p := pool[p].(next := strings[h])], oldtable, strings[h := p], l', clock + 1, i)
            && StartsWith(l', clock + 1, i, pool[p].next)
            && SamePool(pool, l, pool[p := pool[p].(next := strings[h])], l')
  {
    hide Linked, After, Head;
    CanMove(pool, oldtable, strings, l, clock, i, p);
    var h := pool[p].hash % |strings|;
    var c, pool', strings' := |oldtable| + h, pool[p := pool[p].(next := strings[h])], strings[h := p];
    var l' := MovedTo(l, p, c, clock);
    MoveKeepsLinked(Nexts(pool), l, clock, -1, p, c, strings[h]);
    assert Nexts(pool') == Relinked(Nexts(pool), -1, p, strings[h]);
    var tick := clock + 1;
    forall b | 0 <= b < |strings'| ensures HeadIs(l', tick, |oldtable|, strings', b) {
      assert HeadIs(l, clock, |oldtable|, strings, b);
      MovedHeads(Nexts(pool), l, clock, -1, p, c, |oldtable| + b, strings[b]);
      HeadIsOn(l, clock, |oldtable| + b, strings[b]);
    }
    forall d | i < d < |oldtable| ensures HeadIs(l', tick, 0, oldtable, d) {
      assert HeadIs(l, clock, 0, oldtable, d);
      MovedHeads(Nexts(pool), l, clock, -1, p, c, d, oldtable[d]);
      HeadIsOn(l, clock, d, oldtable[d]);
    }
    MovedHeads(Nexts(pool), l, clock, -1, p, c, i, p);
    assert forall n :: IsLive(l', n) <==> IsLive(l, n);
  }

  lemma HeadIsOn(l: Chains, clock: int, c: int, r: int)
    requires |l.place| == |l.height| && Head(l, clock, c, r)
    ensures r == -1 || On(l, c, r)
  {
  }

  lemma RehashNext(pool: seq<SQString>, oldtable: seq<int>, strings: seq<int>, l: Chains, clock: int, i: nat)
    requires Rehashing(pool, oldtable, strings, l, clock, i) && i < |oldtable| && StartsWith(l, clock, i, -1)
    ensures Rehashing(pool, oldtable, strings, l, clock, i + 1)
    ensures i + 1 < |oldtable| ==> StartsWith(l, clock, i + 1, oldtable[i + 1])
  {
    forall n | IsLive(l, n) ensures l.place[n] != i {
      assert !On(l, i, n);
    }
    assert i + 1 < |oldtable| ==> HeadIs(l, clock, 0, oldtable, i + 1);
  }

  lemma RehashEnds(pool: seq<SQString>, oldtable: seq<int>, strings: seq<int>, l: Chains, clock: int)
    requires Rehashing(pool, oldtable, strings, l, clock, |oldtable|)
    ensures Stored(pool, strings, Chains(Renumbered(l.place, |oldtable|), l.height), clock)
    ensures forall n :: IsLive(Chains(Renumbered(l.place, |oldtable|), l.height), n) <==> IsLive(l, n)
  {
    var l' := Chains(Renumbered(l.place, |oldtable|), l.height);
    assert forall n :: IsLive(l, n) ==> l.place[n] >= |oldtable|;
    RenumberKeepsLinked(Nexts(pool), l, clock, |oldtable|);
    forall b | 0 <= b < |strings| ensures Head(l', clock, b, strings[b]) {
      assert HeadIs(l, clock, |oldtable|, strings, b);
    }
    assert forall n :: IsLive(l', n) <==> IsLive(l, n);
  }

  lemma SameInterned(hashstr: StringHash, pool0: seq<SQString>, l0: Chains, pool: seq<SQString>, l: Chains)
    requires Interned(hashstr, pool0, l0) && SamePool(pool0, l0, pool, l)
    ensures Interned(hashstr, pool, l)
  {
  }
}
