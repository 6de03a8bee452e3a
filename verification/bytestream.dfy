/** Little-endian words and counted lists in front of a byte stream. */
module ByteStream {
  import opened Bytes

  datatype Read<+T> = Fail | Ok(value: T, rest: seq<byte>)

  function Power256(n: nat): (p: nat)
    ensures p > 0
  {
    if n == 0 then 1 else 256 * Power256(n - 1)
  }

  /** The n bytes of v, the lowest first, in front of rest. */
  function PutWord(n: nat, v: nat, rest: seq<byte>): (b: seq<byte>)
    ensures |b| == n + |rest|
  {
    if n == 0 then rest else [v % 256] + PutWord(n - 1, v / 256, rest)
  }

  function GetWord(n: nat, b: seq<byte>): (r: Read<nat>)
    ensures r.Ok? ==> |r.rest| + n == |b| && r.value < Power256(n)
  {
    if n == 0 then Ok(0, b)
    else if b == [] then Fail
    else
      match GetWord(n - 1, b[1..])
      case Fail => Fail
      case Ok(v, rest) => Ok(b[0] + 256 * v, rest)
  }

  lemma {:induction false} WordRoundTrip(n: nat, v: nat, rest: seq<byte>)
    requires v < Power256(n)
    ensures GetWord(n, PutWord(n, v, rest)) == Ok(v, rest)
  {
    if n > 0 {
      assert PutWord(n, v, rest)[1..] == PutWord(n - 1, v / 256, rest);
      WordRoundTrip(n - 1, v / 256, rest);
    }
  }

  lemma DivideTwice(v: nat, p: nat)
    requires p > 0
    ensures v / 256 / p == v / (256 * p)
  {
    var q, r, s := v / 256 / p, v / 256 % p, v % 256;
    assert v / 256 == p * q + r;
    assert v == (256 * p) * q + (256 * r + s) by { assert 256 * (p * q) == (256 * p) * q; }
    QuotientIs(v, 256 * p, q, 256 * r + s);
  }

  lemma QuotientIs(v: nat, d: nat, q: nat, r: nat)
    requires v == d * q + r && r < d
    ensures v / d == q
  {
    var other := v / d;
    assert v == d * other + v % d;
    if q < other { ProductIsMonotone(d, q + 1, other); }
    if other < q { ProductIsMonotone(d, other + 1, q); }
  }

  lemma ProductIsMonotone(d: nat, a: nat, b: nat)
    requires a <= b
    ensures d * a <= d * b
  {
    assert d * b == d * a + d * (b - a);
  }

  /** Byte k is the one of value 256^k. */
  lemma {:induction false} ByteOfWord(n: nat, v: nat, rest: seq<byte>, k: nat)
    requires k < n
    ensures PutWord(n, v, rest)[k] == v / Power256(k) % 256
  {
    if k > 0 {
      ByteOfWord(n - 1, v / 256, rest, k - 1);
      DivideTwice(v, Power256(k - 1));
    }
  }

  lemma Assemble(v: nat, power: nat, pad: nat)
    ensures v % 256 + 256 * (v / 256 + power * pad) == v + (256 * power) * pad
  {
    assert 256 * (power * pad) == (256 * power) * pad;
  }

  /** Reading what the other side padded: only the low word counts. */
  lemma {:induction false} LowWord(n: nat, m: nat, v: nat, pad: nat, rest: seq<byte>)
    requires v < Power256(n) && pad < Power256(m)
    ensures GetWord(n + m, PutWord(n, v, PutWord(m, pad, rest))).Ok?
    ensures var r := GetWord(n + m, PutWord(n, v, PutWord(m, pad, rest)));
            r.value == v + Power256(n) * pad && r.rest == rest
    decreases n
  {
    if n == 0 {
      WordRoundTrip(m, pad, rest);
    } else {
      var b := PutWord(n, v, PutWord(m, pad, rest));
      assert b[1..] == PutWord(n - 1, v / 256, PutWord(m, pad, rest));
      LowWord(n - 1, m, v / 256, pad, rest);
      Assemble(v, Power256(n - 1), pad);
    }
  }

  const TWO_63 := 0x8000_0000_0000_0000
  const TWO_64 := 0x1_0000_0000_0000_0000

  /** SQInteger: 64 bits, two's complement. */
  predicate IsInteger(i: int) {
    -TWO_63 <= i < TWO_63
  }

  function PutInteger(i: int, rest: seq<byte>): seq<byte> {
    PutWord(8, i % TWO_64, rest)
  }

  function GetInteger(b: seq<byte>): (r: Read<int>)
    ensures r.Ok? ==> |r.rest| < |b|
  {
    match GetWord(8, b)
    case Fail => Fail
    case Ok(v, rest) => Ok(if v < TWO_63 then v else v - TWO_64, rest)
  }

  lemma PowerValues()
    ensures Power256(1) == 0x100 && Power256(4) == 0x1_0000_0000 && Power256(8) == TWO_64
  {
    assert Power256(1) == 256 * Power256(0);
    assert Power256(2) == 0x1_0000 && Power256(3) == 0x100_0000 && Power256(4) == 0x1_0000_0000;
    assert Power256(5) == 0x100_0000_0000 && Power256(6) == 0x1_0000_0000_0000 && Power256(7) == 0x100_0000_0000_0000;
  }

  lemma IntegerRoundTrip(i: int, rest: seq<byte>)
    requires IsInteger(i)
    ensures GetInteger(PutInteger(i, rest)) == Ok(i, rest)
  {
    PowerValues();
    WordRoundTrip(8, i % TWO_64, rest);
  }

  // ---------- lists ----------

  function PutList<T>(put: (T, seq<byte>) -> seq<byte>, xs: seq<T>, rest: seq<byte>): seq<byte> {
    if xs == [] then rest else put(xs[0], PutList(put, xs[1..], rest))
  }

  /** Reading never makes the stream longer. */
  ghost predicate Consumes<T>(get: seq<byte> -> Read<T>) {
    forall b :: get(b).Ok? ==> |get(b).rest| <= |b|
  }

  function GetList<T>(get: seq<byte> -> Read<T>, n: nat, b: seq<byte>): Read<seq<T>> {
    if n == 0 then Ok([], b)
    else
      match get(b)
      case Fail => Fail
      case Ok(x, rest) =>
        match GetList(get, n - 1, rest)
        case Fail => Fail
        case Ok(xs, rest') => Ok([x] + xs, rest')
  }

  lemma {:induction false} ListConsumes<T(!new)>(get: seq<byte> -> Read<T>, n: nat, b: seq<byte>)
    requires Consumes(get)
    ensures var r := GetList(get, n, b); r.Ok? ==> |r.rest| <= |b| && |r.value| == n
  {
    if n > 0 {
      match get(b)
      case Fail =>
      case Ok(x, rest) => ListConsumes(get, n - 1, rest);
    }
  }

  /** get reads back what put wrote, whatever follows. */
  ghost predicate Inverse<T(!new)>(put: (T, seq<byte>) -> seq<byte>, get: seq<byte> -> Read<T>, x: T) {
    forall rest :: get(put(x, rest)) == Ok(x, rest)
  }

  lemma {:induction false} ListRoundTrip<T(!new)>(put: (T, seq<byte>) -> seq<byte>, get: seq<byte> -> Read<T>,
                                                  xs: seq<T>, rest: seq<byte>)
    requires forall x :: x in xs ==> Inverse(put, get, x)
    ensures GetList(get, |xs|, PutList(put, xs, rest)) == Ok(xs, rest)
  {
    if xs != [] {
      ListRoundTrip(put, get, xs[1..], rest);
      assert xs[0] in xs && xs == [xs[0]] + xs[1..];
      assert Inverse(put, get, xs[0]);
    }
  }

  // ---------- writing at the end of a stream ----------

  lemma {:induction false} WordAppends(n: nat, v: nat, rest: seq<byte>)
    ensures PutWord(n, v, []) + rest == PutWord(n, v, rest)
  {
    if n > 0 {
      WordAppends(n - 1, v / 256, rest);
      assert [v % 256] + PutWord(n - 1, v / 256, []) + rest == [v % 256] + (PutWord(n - 1, v / 256, []) + rest);
    }
  }

  /** The bytes of the list elements do not depend on what follows. */
  ghost predicate Appends<T(!new)>(put: (T, seq<byte>) -> seq<byte>) {
    forall x, rest :: put(x, rest) == put(x, []) + rest
  }

  lemma {:induction false} ListAppends<T(!new)>(put: (T, seq<byte>) -> seq<byte>, xs: seq<T>, rest: seq<byte>)
    requires Appends(put)
    ensures PutList(put, xs, []) + rest == PutList(put, xs, rest)
  {
    if xs != [] {
      ListAppends(put, xs[1..], rest);
      var tail := PutList(put, xs[1..], []);
      assert put(xs[0], tail) == put(xs[0], []) + tail;
      assert put(xs[0], tail + rest) == put(xs[0], []) + (tail + rest);
    }
  }

  class SQStream {
    var bytes: seq<byte>

    constructor (bytes: seq<byte>)
      ensures this.bytes == bytes
    {
      this.bytes := bytes;
    }

    /** What is written is followed by rest, when that is written. */
    method WriteWord(n: nat, v: nat, ghost rest: seq<byte>)
      modifies this
      ensures bytes + rest == old(bytes) + PutWord(n, v, rest)
    {
      bytes := bytes + PutWord(n, v, []);
      WordAppends(n, v, rest);
      assert old(bytes) + PutWord(n, v, []) + rest == old(bytes) + (PutWord(n, v, []) + rest);
    }

    method WriteInteger(i: int, ghost rest: seq<byte>)
      modifies this
      ensures bytes + rest == old(bytes) + PutInteger(i, rest)
    {
      WriteWord(8, i % TWO_64, rest);
    }

    /** Writes an array as it lies in memory. */
    method WriteBlock<T(!new)>(put: (T, seq<byte>) -> seq<byte>, xs: seq<T>, ghost rest: seq<byte>)
      requires Appends(put)
      modifies this
      ensures bytes + rest == old(bytes) + PutList(put, xs, rest)
    {
      bytes := bytes + PutList(put, xs, []);
      ListAppends(put, xs, rest);
      assert old(bytes) + PutList(put, xs, []) + rest == old(bytes) + (PutList(put, xs, []) + rest);
    }

    /** The result is false when the stream is too short. */
    method ReadWord(n: nat) returns (ok: bool, v: nat)
      modifies this
      ensures match GetWord(n, old(bytes)) case Fail => !ok case Ok(x, rest) => ok && v == x && bytes == rest
    {
      match GetWord(n, bytes) {
        case Fail => return false, 0;
        case Ok(x, rest) =>
          ok, v := true, x;
          bytes := rest;
      }
    }

    method ReadInteger() returns (ok: bool, i: int)
      modifies this
      ensures match GetInteger(old(bytes)) case Fail => !ok case Ok(x, rest) => ok && i == x && bytes == rest
    {
      var v;
      ok, v := ReadWord(8);
      i := if v < TWO_63 then v else v - TWO_64;
    }

    /** Reads an array as it lies in memory. */
    method ReadBlock<T>(get: seq<byte> -> Read<T>, n: nat) returns (ok: bool, xs: seq<T>)
      modifies this
      ensures match GetList(get, n, old(bytes)) case Fail => !ok case Ok(ys, rest) => ok && xs == ys && bytes == rest
    {
      match GetList(get, n, bytes) {
        case Fail => return false, [];
        case Ok(ys, rest) =>
          ok, xs := true, ys;
          bytes := rest;
      }
    }
  }
}
