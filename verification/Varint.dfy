/** Base 128 varints, as the generated protobuf code reads and writes them.
  *
  * Go shifts and masks fixed-width words.  Here a word is a `nat` below its
  * modulus: `v & 0x7f | 0x80` is `v % 128 + 128`, `v >>= 7` is `v / 128`, and
  * `v |= (b & 0x7f) << shift`, whose two operands never share a bit, is an
  * addition modulo the width of `v`.
  */
module Varint {
  import opened Bytes

  const TWO31: int := 0x8000_0000
  const TWO32: int := 0x1_0000_0000
  const TWO63: int := 0x8000_0000_0000_0000
  const TWO64: int := 0x1_0000_0000_0000_0000

  type uint32 = x: int | 0 <= x < TWO32
  type uint64 = x: int | 0 <= x < TWO64
  type int32 = x: int | -TWO31 <= x < TWO31
  type int64 = x: int | -TWO63 <= x < TWO63

  /** Two's complement: the signed number a word of modulus `2 * half` stands for. */
  function Signed(v: nat, half: nat): (r: int)
    requires v < 2 * half
    ensures 0 - half <= r < half
    ensures r == v || r == v - 2 * half
  {
    if v < half then v else v - 2 * half
  }

  lemma MulBelow(q: int, m: int, d: int)
    requires q * m == d && 0 - m < d < m
    ensures q == 0
  {
    assert q >= 1 ==> q * m >= m;
    assert q <= -1 ==> q * m <= 0 - m;
  }

  lemma ModShift(x: int, q: int, m: int)
    requires 0 < m
    ensures (x + q * m) % m == x % m
  {
    var k := x / m;
    var j := (x + q * m) / m;
    assert x == k * m + x % m;
    assert x + q * m == j * m + (x + q * m) % m;
    assert (k + q - j) * m == (x + q * m) % m - x % m;
    MulBelow(k + q - j, m, (x + q * m) % m - x % m);
  }

  /** Truncating to a word and reading the word back as signed is the identity. */
  lemma SignedOf(x: int, half: int)
    requires 0 < half && 0 - half <= x < half
    ensures 0 <= x % (2 * half) < 2 * half
    ensures Signed(x % (2 * half), half) == x
  {
    var m := 2 * half;
    if x < 0 {
      ModShift(x, 1, m);
      ModSmall(x + m, m);
    } else {
      ModSmall(x, m);
    }
  }

  lemma ModSmall(x: int, m: int)
    requires 0 <= x < m
    ensures x % m == x
  {
    assert x == (x / m) * m + x % m;
    MulBelow(x / m, m, x - x % m);
  }

  lemma ModAdd(a: int, b: int, m: int)
    requires 0 < m
    ensures (a % m + b) % m == (a + b) % m
  {
    var q := a / m;
    assert a == q * m + a % m;
    ModShift(a % m + b, q, m);
  }

  /** What encodeVarintMessage lays down for `v`. */
  function Encode(v: nat): (s: seq<byte>)
    ensures |s| >= 1
  {
    if v >= 128 then [v % 128 + 128] + Encode(v / 128) else [v]
  }

  /** The number at the front of `s`, before any truncation to a machine width,
    * and the bytes it takes; None when the input ends inside it. */
  function Decode(s: seq<byte>): (r: Option<(nat, nat)>)
    ensures r.Some? ==> 1 <= r.value.1 <= |s|
  {
    if s == [] then None
    else if s[0] < 128 then Some((s[0], 1))
    else
      match Decode(s[1..])
      case None => None
      case Some(p) => Some((s[0] - 128 + 128 * p.0, p.1 + 1))
  }

  lemma {:induction false} RoundTrip(v: nat, rest: seq<byte>)
    ensures Decode(Encode(v) + rest) == Some((v, |Encode(v)|))
  {
    var s := Encode(v) + rest;
    if v >= 128 {
      assert s[1..] == Encode(v / 128) + rest;
      RoundTrip(v / 128, rest);
    }
  }

  function Pow128(k: nat): (p: nat)
    ensures p >= 1
  {
    if k == 0 then 1 else 128 * Pow128(k - 1)
  }

  /** A number below 128^k takes at most k bytes. */
  lemma {:induction false} EncodeLength(v: nat, k: nat)
    requires k >= 1 && v < Pow128(k)
    ensures |Encode(v)| <= k
  {
    if v >= 128 {
      EncodeLength(v / 128, k - 1);
    }
  }

  lemma EncodeLength64(v: uint64)
    ensures |Encode(v)| <= 10
  {
    assert Pow128(2) == 0x4000;
    assert Pow128(4) == 0x4000 * 0x4000;
    assert Pow128(6) == 0x4000 * 0x4000 * 0x4000;
    assert Pow128(8) == 0x4000 * 0x4000 * 0x4000 * 0x4000;
    assert Pow128(10) == 0x4000 * 0x4000 * 0x4000 * 0x4000 * 0x4000;
    EncodeLength(v, 10);
  }

  lemma EncodeLength32(v: uint32)
    ensures |Encode(v)| <= 5
  {
    assert Pow128(2) == 0x4000;
    assert Pow128(4) == 0x4000 * 0x4000;
    assert Pow128(5) == 128 * Pow128(4);
    EncodeLength(v, 5);
  }

  /** sovMessage: how many bytes the varint of `x` takes. */
  method Sov(x: uint64) returns (n: nat)
    ensures n == |Encode(x)|
  {
    var v := x;
    n := 1;
    v := v / 128;
    while v != 0
      invariant 0 <= v < TWO64
      invariant n + (if v == 0 then 0 else |Encode(v)|) == |Encode(x)|
    {
      n := n + 1;
      v := v / 128;
    }
  }

  /** encodeVarintMessage: write `x` at `offset`, return the next free index. */
  method PutVarint(data: array<byte>, offset: nat, x: uint64) returns (next: nat)
    requires offset + |Encode(x)| <= data.Length
    modifies data
    ensures next == offset + |Encode(x)|
    ensures data[..next] == old(data[..offset]) + Encode(x)
    ensures forall k :: next <= k < data.Length ==> data[k] == old(data[k])
  {
    var v := x;
    next := offset;
    while v >= 128
      invariant 0 <= v < TWO64
      invariant offset <= next
      invariant next + |Encode(v)| == offset + |Encode(x)|
      invariant data[..next] + Encode(v) == old(data[..offset]) + Encode(x)
      invariant forall k :: offset + |Encode(x)| <= k < data.Length ==> data[k] == old(data[k])
    {
      ghost var before := data[..next];
      data[next] := v % 128 + 128;
      assert data[..next + 1] == before + [v % 128 + 128];
      next := next + 1;
      v := v / 128;
    }
    ghost var before := data[..next];
    data[next] := v;
    assert data[..next + 1] == before + [v];
    next := next + 1;
  }

  /** What one continuation byte contributes. */
  lemma Accumulate(g: int, p: int, d: int, v: int)
    ensures g + p * (d + 128 * v) == (g + p * d) + p * 128 * v
  {
  }

  /** The varint loop of Unmarshal, reading into a word of modulus `m`. */
  method GetVarint(data: seq<byte>, start: nat, m: nat) returns (r: Option<(nat, nat)>)
    requires start <= |data| && m > 0
    ensures Decode(data[start..]).None? ==> r.None?
    ensures Decode(data[start..]).Some? ==>
              var p := Decode(data[start..]).value; r == Some((p.0 % m, start + p.1))
  {
    var index, word, weight := start, 0, 1;
    ghost var raw: nat := 0;
    ghost var whole := Decode(data[start..]);
    while true
      invariant start <= index <= |data|
      invariant word == raw % m && weight > 0
      invariant Decode(data[index..]).None? ==> whole.None?
      invariant Decode(data[index..]).Some? ==>
                  var p := Decode(data[index..]).value;
                  whole == Some((raw + weight * p.0, index - start + p.1))
      decreases |data| - index
    {
      if index >= |data| {
        return None;
      }
      ghost var here := Decode(data[index..]);
      assert data[index..][1..] == data[index + 1..];
      var b := data[index];
      index := index + 1;
      ModAdd(raw, weight * (b % 128), m);
      word := (word + weight * (b % 128)) % m;
      if b < 128 {
        assert b % 128 == b;
        return Some((word, index));
      }
      if here.Some? {
        Accumulate(raw, weight, b - 128, Decode(data[index..]).value.0);
      }
      raw := raw + weight * (b % 128);
      weight := weight * 128;
    }
    assert false;
  }
}
