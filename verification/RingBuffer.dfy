/** The byte ring that remembers the end of what was written to it. */
module RingBuffer {
  import opened Bytes

  /** The last `n` bytes of `s`, or all of it. */
  function LastN(s: seq<byte>, n: nat): (r: seq<byte>)
    ensures |r| == if |s| <= n then |s| else n
  {
    if |s| <= n then s else s[|s| - n..]
  }

  /** Forgetting early or late makes no difference. */
  lemma LastOfLast(s: seq<byte>, t: seq<byte>, n: nat)
    ensures LastN(LastN(s, n) + t, n) == LastN(s + t, n)
  {
  }

  /** Writing the first `n` bytes now and the rest later comes to the same. */
  lemma Turn(held: seq<byte>, b: seq<byte>, n: nat, cap: nat)
    requires n <= |b|
    ensures LastN(LastN(held + b[..n], cap) + b[n..], cap) == LastN(held + b, cap)
  {
    hide LastN;
    LastOfLast(held + b[..n], b[n..], cap);
    assert held + b[..n] + b[n..] == held + b;
  }

  lemma LastShort(s: seq<byte>, n: nat)
    requires |s| <= n
    ensures LastN(s, n) == s
  {
  }

  /** What a ring of capacity `n` holds after a list of writes. */
  function AfterWrites(held: seq<byte>, writes: seq<seq<byte>>, n: nat): seq<byte>
    decreases |writes|
  {
    if writes == [] then held
    else AfterWrites(LastN(held + writes[0], n), writes[1..], n)
  }

  /** Whatever the writes were, the ring holds the end of everything written. */
  lemma {:induction false} RingRemembers(held: seq<byte>, writes: seq<seq<byte>>, n: nat)
    requires |held| <= n
    ensures AfterWrites(held, writes, n) == LastN(held + Flatten(writes), n)
    decreases |writes|
  {
    hide LastN;
    if writes == [] {
      assert held + Flatten(writes) == held;
      LastShort(held, n);
    } else {
      var w, rest := writes[0], Flatten(writes[1..]);
      RingRemembers(LastN(held + w, n), writes[1..], n);
      LastOfLast(held + w, rest, n);
      assert held + w + rest == held + (w + rest);
    }
  }

  class Ringbuf {
    var buf: array<byte>
    var start: nat
    var size: nat

    ghost predicate Valid()
      reads this
    {
      0 < buf.Length && start < buf.Length && size <= buf.Length && (size < buf.Length ==> start == 0)
    }

    /** What the ring holds, oldest byte first. */
    ghost function Contents(): (s: seq<byte>)
      requires Valid()
      reads this, buf
      ensures |s| == size
    {
      Held(buf[..], start, size)
    }

    /** New; a ring of size 0 cannot take a byte (Write divides by its size). */
    constructor (size: nat)
      requires size > 0
      ensures Valid() && fresh(buf) && buf.Length == size && Contents() == []
    {
      buf := new byte[size];
      start, this.size := 0, 0;
    }

    method Write(b: seq<byte>)
      requires Valid()
      modifies this`start, this`size, buf
      ensures Valid()
      ensures Contents() == LastN(old(Contents()) + b, buf.Length)
    {
      hide LastN, Held;
      var rest := b;
      while |rest| > 0
        invariant Valid()
        invariant LastN(Contents() + rest, buf.Length) == LastN(old(Contents()) + b, buf.Length)
        decreases |rest|
      {
        ghost var held := Contents();
        var n := WriteSome(rest);
        Turn(held, rest, n, buf.Length);
        rest := rest[n..];
      }
      assert Contents() + [] == Contents();
      LastShort(Contents(), buf.Length);
    }

    /** One turn of the loop: copy up to the end of the array. */
    method WriteSome(b: seq<byte>) returns (n: nat)
      requires Valid() && |b| > 0
      modifies this`start, this`size, buf
      ensures Valid()
      ensures 0 < n <= |b|
      ensures Contents() == LastN(old(Contents()) + b[..n], buf.Length)
    {
      hide NextIndex;
      hide LastN;
      hide Held;
      ghost var was, start0, size0 := buf[..], start, size;
      var at := NextIndex(start, size, buf.Length);
      n := if |b| <= buf.Length - at then |b| else buf.Length - at;
      Store(at, b[..n]);
      if size >= buf.Length {
        start := start + n;
        if start >= buf.Length {
          start := 0;
        }
      }
      size := size + n;
      if size > buf.Length {
        size := buf.Length;
      }
      if size0 < buf.Length {
        Appended(was, size0, b[..n]);
      } else {
        Overwritten(was, start0, b[..n]);
      }
    }

    method Store(at: nat, b: seq<byte>)
      requires at + |b| <= buf.Length
      modifies buf
      ensures buf[..] == old(buf[..at]) + b + old(buf[at + |b|..])
    {
      forall k | 0 <= k < |b| {
        buf[at + k] := b[k];
      }
    }

    /** Read: the longest prefix of the contents that fits behind `from`, with the
      * ring itself left alone. */
    method Read(b: array<byte>, from: nat) returns (read: nat)
      requires Valid() && b != buf && from <= b.Length
      modifies b
      ensures read == if size <= b.Length - from then size else b.Length - from
      ensures b[from..from + read] == Contents()[..read]
      ensures forall k :: 0 <= k < from || from + read <= k < b.Length ==> b[k] == old(b[k])
      ensures Contents() == old(Contents())
    {
      ghost var held := Contents();
      read := 0;
      var left, at := size, start;
      while from + read < b.Length && left > 0
        invariant left == size - read && 0 <= left && from + read <= b.Length
        invariant at == (if start + read < buf.Length then start + read else start + read - buf.Length)
        invariant left > 0 ==> at < buf.Length
        invariant Contents() == held
        invariant forall k :: 0 <= k < read ==> b[from + k] == held[k]
        invariant forall k :: 0 <= k < from || from + read <= k < b.Length ==> b[k] == old(b[k])
        decreases left
      {
        var end := if at + left > buf.Length then buf.Length else at + left;
        var n := if b.Length - (from + read) <= end - at then b.Length - (from + read) else end - at;
        assert forall k :: read <= k < read + n ==> held[k] == buf[at + k - read];
        forall k | 0 <= k < n {
          b[from + read + k] := buf[at + k];
        }
        left := left - n;
        read := read + n;
        at := if at + n == buf.Length then 0 else at + n;
      }
    }
  }

  /** The contents of a ring laid out in `data`: once full, they wrap round. */
  function Held(data: seq<byte>, start: nat, size: nat): (s: seq<byte>)
    requires start <= |data| && size <= |data|
    ensures |s| == size
  {
    if size < |data| then data[..size] else data[start..] + data[..start]
  }

  /** Writing behind the contents of a ring that is not full. */
  lemma Appended(was: seq<byte>, size: nat, b: seq<byte>)
    requires size < |was| && size + |b| <= |was|
    ensures var now := was[..size] + b + was[size + |b|..];
            Held(now, 0, size + |b|) == LastN(Held(was, 0, size) + b, |was|)
  {
    var now := was[..size] + b + was[size + |b|..];
    assert now[..size + |b|] == was[..size] + b;
    assert now[0..] + now[..0] == now;
  }

  /** Writing over the oldest bytes of a full ring. */
  lemma Overwritten(was: seq<byte>, at: nat, b: seq<byte>)
    requires at < |was| && at + |b| <= |was|
    ensures var now := was[..at] + b + was[at + |b|..];
            Held(now, if at + |b| >= |was| then 0 else at + |b|, |was|) == LastN(Held(was, at, |was|) + b, |was|)
  {
    var now := was[..at] + b + was[at + |b|..];
    var k := at + |b|;
    var x := was[at..] + was[..at] + b;
    assert was[at..][|b|..] == was[k..];
    assert x[|b|..] == was[k..] + (was[..at] + b);
    assert now[k..] == was[k..] && now[..k] == was[..at] + b;
    assert now[0..] + now[..0] == now;
  }

  /** Where the next byte goes: behind the contents, round the end. */
  function NextIndex(start: nat, size: nat, len: nat): (i: nat)
    requires 0 < len && start < len && size <= len && (size < len ==> start == 0)
    ensures i == if size < len then size else start
  {
    assert (start + len) % len == start;
    (start + size) % len
  }
}
