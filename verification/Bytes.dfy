/** Bytes, optional values and the few facts about sequences that every module shares. */
module Bytes {

  type byte = x: int | 0 <= x < 256

  datatype Option<+T> = None | Some(value: T)

  /** The concatenation of a list of byte strings. */
  function Flatten<T>(ss: seq<seq<T>>): seq<T> {
    if ss == [] then [] else ss[0] + Flatten(ss[1..])
  }

  lemma {:induction false} FlattenConcat<T>(a: seq<seq<T>>, b: seq<seq<T>>)
    ensures Flatten(a + b) == Flatten(a) + Flatten(b)
  {
    if a == [] {
      assert a + b == b;
    } else {
      assert (a + b)[1..] == a[1..] + b;
      FlattenConcat(a[1..], b);
    }
  }

  lemma FlattenSnoc<T>(a: seq<seq<T>>, x: seq<T>)
    ensures Flatten(a + [x]) == Flatten(a) + x
  {
    FlattenConcat(a, [x]);
    assert Flatten([x]) == x + Flatten<T>([]);
  }

  /** The first index of `b` in `s`, or -1: Go's bytes.IndexByte. */
  function IndexByte(s: seq<byte>, b: byte): (i: int)
    ensures -1 <= i < |s|
  {
    if s == [] then -1
    else if s[0] == b then 0
    else
      var j := IndexByte(s[1..], b);
      if j == -1 then -1 else j + 1
  }

  lemma {:induction false} IndexByteFirst(s: seq<byte>, b: byte)
    ensures var i := IndexByte(s, b);
            && (i >= 0 ==> s[i] == b)
            && forall k :: 0 <= k < (if i == -1 then |s| else i) ==> s[k] != b
  {
    if s != [] && s[0] != b {
      IndexByteFirst(s[1..], b);
      var i := IndexByte(s, b);
      forall k | 0 <= k < (if i == -1 then |s| else i) ensures s[k] != b {
        assert k > 0 ==> s[k] == s[1..][k - 1];
      }
    }
  }

  /** The index found does not depend on what follows it. */
  lemma IndexByteAt(s: seq<byte>, b: byte, i: nat)
    requires i < |s| && s[i] == b && forall k :: 0 <= k < i ==> s[k] != b
    ensures IndexByte(s, b) == i
  {
    IndexByteFirst(s, b);
  }

  lemma IndexByteNone(s: seq<byte>, b: byte)
    requires forall k :: 0 <= k < |s| ==> s[k] != b
    ensures IndexByte(s, b) == -1
  {
    IndexByteFirst(s, b);
  }
}
