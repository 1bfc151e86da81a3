/** The bytes themselves: which tag every field of Header, Field and Message goes
  * under, in which order, and how numbers are laid out. */
module WireLayout {
  import opened Bytes
  import opened Varint
  import opened Wire
  import opened Radix

  // ------------------------------------------------------------------ numbers

  /** A varint is the digits of the number to base 128, the lowest first, with the high
    * bit on all but the last. */
  lemma {:induction false} VarintDigits(v: nat, i: nat)
    requires i < |Encode(v)|
    ensures Encode(v)[i] == Digit(v, 128, i) + if i + 1 < |Encode(v)| then 128 else 0
  {
    hide Digit;
    if i == 0 {
      DigitLast(v, 128);
    } else {
      VarintDigits(v / 128, i - 1);
      DigitDown(v, 128, i);
    }
  }

  /** It has no leading zero digits. */
  lemma {:induction false} VarintShortest(v: nat)
    ensures |Encode(v)| > 1 ==> Encode(v)[|Encode(v)| - 1] > 0
  {
    if v >= 128 {
      VarintShortest(v / 128);
    }
  }

  /** Byte `i` of a float64 pattern is its digit `i` to base 256. */
  lemma FixedDigits(v: uint64, i: nat)
    requires i < 8
    ensures Fixed64(v)[i] == Digit(v, 256, i)
  {
    assert Power(256, 1) == 0x100 && Power(256, 2) == 0x1_0000 && Power(256, 3) == 0x100_0000;
    assert Power(256, 4) == 0x1_0000_0000 && Power(256, 5) == 0x100_0000_0000;
    assert Power(256, 6) == 0x1_0000_0000_0000 && Power(256, 7) == 0x100_0000_0000_0000;
  }

  // --------------------------------------------------------- one field at a time

  /** A tag, a length and that many bytes. */
  function Delimited(tag: byte, b: Blob): seq<byte> {
    [tag] + Encode(|b|) + b
  }

  lemma Grouped(num: FieldNumber, b: Blob)
    ensures BlobRecord(num, b) == Delimited(num * 8 + 2, b)
  {
  }

  lemma {:induction false} OnlyPart(ps: seq<seq<byte>>, k: nat)
    requires k < |ps| && forall j :: 0 <= j < |ps| && j != k ==> ps[j] == []
    ensures Flatten(ps) == ps[k]
  {
    if k == 0 {
      NoParts(ps[1..]);
      assert ps[0] + [] == ps[0];
    } else {
      OnlyPart(ps[1..], k - 1);
      assert [] + ps[k] == ps[k];
    }
  }

  lemma {:induction false} NoParts(ps: seq<seq<byte>>)
    requires forall j :: 0 <= j < |ps| ==> ps[j] == []
    ensures Flatten(ps) == []
  {
    if ps != [] {
      NoParts(ps[1..]);
    }
  }

  lemma HeaderTags(n: uint32, k: int32, b: Blob)
    ensures EncodeHeader(EmptyHeader.(messageLength := Some(n))) == [0x08] + Encode(n)
    ensures EncodeHeader(EmptyHeader.(hashFunction := Some(k))) == [0x18] + Encode(k % TWO64)
    ensures EncodeHeader(EmptyHeader.(signer := Some(b))) == Delimited(0x22, b)
    ensures EncodeHeader(EmptyHeader.(keyVersion := Some(n))) == [0x28] + Encode(n)
    ensures EncodeHeader(EmptyHeader.(hmac := Some(b))) == Delimited(0x32, b)
  {
    hide Flatten, Encode, Delimited;
    ModSmall(n, TWO64);
    OnlyPart(HeaderParts(EmptyHeader.(messageLength := Some(n))), 0);
    OnlyPart(HeaderParts(EmptyHeader.(hashFunction := Some(k))), 1);
    OnlyPart(HeaderParts(EmptyHeader.(signer := Some(b))), 2);
    OnlyPart(HeaderParts(EmptyHeader.(keyVersion := Some(n))), 3);
    OnlyPart(HeaderParts(EmptyHeader.(hmac := Some(b))), 4);
    Grouped(4, b);
    Grouped(6, b);
  }

  /** A Header is its fields one after the other, in the order of their numbers. */
  lemma HeaderInOrder(h: Header)
    ensures EncodeHeader(h)
            == EncodeHeader(EmptyHeader.(messageLength := h.messageLength))
               + EncodeHeader(EmptyHeader.(hashFunction := h.hashFunction))
               + EncodeHeader(EmptyHeader.(signer := h.signer))
               + EncodeHeader(EmptyHeader.(keyVersion := h.keyVersion))
               + EncodeHeader(EmptyHeader.(hmac := h.hmac))
  {
    var ps := HeaderParts(h);
    HeaderPieces(h);
    hide HeaderParts;
    FlattenAt(ps, 5);
    assert ps[..5] == ps;
    JoinSteps(ps);
  }

  lemma HeaderPieces(h: Header)
    ensures |HeaderParts(h)| == 5
    ensures EncodeHeader(EmptyHeader.(messageLength := h.messageLength)) == HeaderParts(h)[0]
    ensures EncodeHeader(EmptyHeader.(hashFunction := h.hashFunction)) == HeaderParts(h)[1]
    ensures EncodeHeader(EmptyHeader.(signer := h.signer)) == HeaderParts(h)[2]
    ensures EncodeHeader(EmptyHeader.(keyVersion := h.keyVersion)) == HeaderParts(h)[3]
    ensures EncodeHeader(EmptyHeader.(hmac := h.hmac)) == HeaderParts(h)[4]
  {
    hide Flatten, BlobRecord, WordRecord;
    OnlyPart(HeaderParts(EmptyHeader.(messageLength := h.messageLength)), 0);
    OnlyPart(HeaderParts(EmptyHeader.(hashFunction := h.hashFunction)), 1);
    OnlyPart(HeaderParts(EmptyHeader.(signer := h.signer)), 2);
    OnlyPart(HeaderParts(EmptyHeader.(keyVersion := h.keyVersion)), 3);
    OnlyPart(HeaderParts(EmptyHeader.(hmac := h.hmac)), 4);
  }

  /** The varints of a packed list. */
  function Varints(xs: seq<int64>): seq<byte> {
    Flatten(seq(|xs|, i requires 0 <= i < |xs| => Encode(xs[i] % TWO64)))
  }

  /** The patterns of a packed list. */
  function Patterns(xs: seq<uint64>): seq<byte> {
    Flatten(seq(|xs|, i requires 0 <= i < |xs| => Fixed64(xs[i])))
  }

  /** One byte for each, 0 or 1. */
  function Flags(xs: seq<bool>): seq<byte> {
    seq(|xs|, i requires 0 <= i < |xs| => if xs[i] then 1 else 0)
  }

  lemma {:induction false} VarintsAre(xs: seq<int64>)
    ensures Integers(xs) == Varints(xs)
  {
    hide Encode;
    if xs != [] {
      var all := seq(|xs|, i requires 0 <= i < |xs| => Encode(xs[i] % TWO64));
      VarintsAre(xs[1..]);
      assert all[1..] == seq(|xs[1..]|, i requires 0 <= i < |xs[1..]| => Encode(xs[1..][i] % TWO64));
    }
  }

  lemma {:induction false} PatternsAre(xs: seq<uint64>)
    ensures Doubles(xs) == Patterns(xs)
  {
    hide Fixed64;
    if xs != [] {
      var all := seq(|xs|, i requires 0 <= i < |xs| => Fixed64(xs[i]));
      PatternsAre(xs[1..]);
      assert all[1..] == seq(|xs[1..]|, i requires 0 <= i < |xs[1..]| => Fixed64(xs[1..][i]));
    }
  }

  lemma {:induction false} FlagsAre(xs: seq<bool>)
    ensures Bools(xs) == Flags(xs)
  {
    if xs != [] {
      FlagsAre(xs[1..]);
      assert Flags(xs) == [if xs[0] then 1 else 0] + Flags(xs[1..]);
    }
  }

  lemma FieldTags(k: int32, b: Blob)
    ensures EncodeField(EmptyField.(name := Some(b))) == Delimited(0x0a, b)
    ensures EncodeField(EmptyField.(valueType := Some(k))) == [0x10] + Encode(k % TWO64)
    ensures EncodeField(EmptyField.(representation := Some(b))) == Delimited(0x1a, b)
  {
    hide Flatten, Encode, Delimited;
    OnlyPart(FieldParts(EmptyField.(name := Some(b))), 0);
    OnlyPart(FieldParts(EmptyField.(valueType := Some(k))), 1);
    OnlyPart(FieldParts(EmptyField.(representation := Some(b))), 2);
    Grouped(1, b);
    Grouped(3, b);
  }

  /** Every string and every byte string goes into a record of its own, in list order. */
  lemma FieldListTags(b: Blob, bs: seq<Blob>)
    ensures EncodeField(EmptyField) == []
    ensures EncodeField(EmptyField.(strings := [b] + bs)) == Delimited(0x22, b) + EncodeField(EmptyField.(strings := bs))
    ensures EncodeField(EmptyField.(blobs := [b] + bs)) == Delimited(0x2a, b) + EncodeField(EmptyField.(blobs := bs))
  {
    hide Flatten, Encode, Delimited;
    assert ([b] + bs)[1..] == bs;
    NoParts(FieldParts(EmptyField));
    OnlyPart(FieldParts(EmptyField.(strings := [b] + bs)), 3);
    OnlyPart(FieldParts(EmptyField.(strings := bs)), 3);
    OnlyPart(FieldParts(EmptyField.(blobs := [b] + bs)), 4);
    OnlyPart(FieldParts(EmptyField.(blobs := bs)), 4);
    Grouped(4, b);
    Grouped(5, b);
  }

  /** Numbers and booleans go into one block, unless there are none. */
  lemma FieldPackedTags(xs: seq<int64>, ds: seq<uint64>, bs: seq<bool>)
    ensures xs != [] ==> EncodeField(EmptyField.(integers := xs)) == Delimited(0x32, Varints(xs))
    ensures ds != [] ==> EncodeField(EmptyField.(doubles := ds)) == Delimited(0x3a, Patterns(ds))
    ensures bs != [] ==> EncodeField(EmptyField.(bools := bs)) == Delimited(0x42, Flags(bs))
  {
    hide Flatten, Encode, Delimited, Integers, Doubles, Bools, Varints, Patterns, Flags;
    OnlyPart(FieldParts(EmptyField.(integers := xs)), 5);
    OnlyPart(FieldParts(EmptyField.(doubles := ds)), 6);
    OnlyPart(FieldParts(EmptyField.(bools := bs)), 7);
    VarintsAre(xs);
    PatternsAre(ds);
    FlagsAre(bs);
    Grouped(6, Varints(xs));
    Grouped(7, Patterns(ds));
    Grouped(8, Flags(bs));
  }

  lemma FieldInOrder(f: Field)
    ensures EncodeField(f)
            == EncodeField(EmptyField.(name := f.name)) + EncodeField(EmptyField.(valueType := f.valueType))
               + EncodeField(EmptyField.(representation := f.representation))
               + EncodeField(EmptyField.(strings := f.strings)) + EncodeField(EmptyField.(blobs := f.blobs))
               + EncodeField(EmptyField.(integers := f.integers)) + EncodeField(EmptyField.(doubles := f.doubles))
               + EncodeField(EmptyField.(bools := f.bools))
  {
    var ps := FieldParts(f);
    FieldPieces(f);
    FieldListPieces(f);
    hide FieldParts;
    FlattenAt(ps, 8);
    assert ps[..8] == ps;
    JoinSteps(ps);
  }

  lemma FieldPieces(f: Field)
    ensures |FieldParts(f)| == 8
    ensures EncodeField(EmptyField.(name := f.name)) == FieldParts(f)[0]
    ensures EncodeField(EmptyField.(valueType := f.valueType)) == FieldParts(f)[1]
    ensures EncodeField(EmptyField.(representation := f.representation)) == FieldParts(f)[2]
  {
    hide Flatten, BlobRecord, WordRecord;
    OnlyPart(FieldParts(EmptyField.(name := f.name)), 0);
    OnlyPart(FieldParts(EmptyField.(valueType := f.valueType)), 1);
    OnlyPart(FieldParts(EmptyField.(representation := f.representation)), 2);
  }

  lemma FieldListPieces(f: Field)
    ensures EncodeField(EmptyField.(strings := f.strings)) == FieldParts(f)[3]
    ensures EncodeField(EmptyField.(blobs := f.blobs)) == FieldParts(f)[4]
    ensures EncodeField(EmptyField.(integers := f.integers)) == FieldParts(f)[5]
    ensures EncodeField(EmptyField.(doubles := f.doubles)) == FieldParts(f)[6]
    ensures EncodeField(EmptyField.(bools := f.bools)) == FieldParts(f)[7]
  {
    hide Flatten, BlobRecord, WordRecord, Integers, Doubles, Bools;
    OnlyPart(FieldParts(EmptyField.(strings := f.strings)), 3);
    OnlyPart(FieldParts(EmptyField.(blobs := f.blobs)), 4);
    OnlyPart(FieldParts(EmptyField.(integers := f.integers)), 5);
    OnlyPart(FieldParts(EmptyField.(doubles := f.doubles)), 6);
    OnlyPart(FieldParts(EmptyField.(bools := f.bools)), 7);
  }

  lemma MessageTags(t: int64, k: int32, b: Blob)
    ensures EncodeMessage(EmptyMessage.(uuid := Some(b))) == Delimited(0x0a, b)
    ensures EncodeMessage(EmptyMessage.(timestamp := Some(t))) == [0x10] + Encode(t % TWO64)
    ensures EncodeMessage(EmptyMessage.(msgType := Some(b))) == Delimited(0x1a, b)
    ensures EncodeMessage(EmptyMessage.(logger := Some(b))) == Delimited(0x22, b)
    ensures EncodeMessage(EmptyMessage.(severity := Some(k))) == [0x28] + Encode(k % TWO32)
    ensures EncodeMessage(EmptyMessage.(payload := Some(b))) == Delimited(0x32, b)
    ensures EncodeMessage(EmptyMessage.(envVersion := Some(b))) == Delimited(0x3a, b)
    ensures EncodeMessage(EmptyMessage.(pid := Some(k))) == [0x40] + Encode(k % TWO32)
    ensures EncodeMessage(EmptyMessage.(hostname := Some(b))) == Delimited(0x4a, b)
  {
    MessageTextTags(b);
    hide Flatten, Encode;
    OnlyPart(MessageParts(EmptyMessage.(timestamp := Some(t))), 1);
    OnlyPart(MessageParts(EmptyMessage.(severity := Some(k))), 4);
    OnlyPart(MessageParts(EmptyMessage.(pid := Some(k))), 7);
  }

  lemma MessageTextTags(b: Blob)
    ensures EncodeMessage(EmptyMessage.(uuid := Some(b))) == Delimited(0x0a, b)
    ensures EncodeMessage(EmptyMessage.(msgType := Some(b))) == Delimited(0x1a, b)
    ensures EncodeMessage(EmptyMessage.(logger := Some(b))) == Delimited(0x22, b)
    ensures EncodeMessage(EmptyMessage.(payload := Some(b))) == Delimited(0x32, b)
    ensures EncodeMessage(EmptyMessage.(envVersion := Some(b))) == Delimited(0x3a, b)
    ensures EncodeMessage(EmptyMessage.(hostname := Some(b))) == Delimited(0x4a, b)
  {
    hide Flatten, Delimited, BlobRecord;
    OnlyPart(MessageParts(EmptyMessage.(uuid := Some(b))), 0);
    OnlyPart(MessageParts(EmptyMessage.(msgType := Some(b))), 2);
    OnlyPart(MessageParts(EmptyMessage.(logger := Some(b))), 3);
    OnlyPart(MessageParts(EmptyMessage.(payload := Some(b))), 5);
    OnlyPart(MessageParts(EmptyMessage.(envVersion := Some(b))), 6);
    OnlyPart(MessageParts(EmptyMessage.(hostname := Some(b))), 8);
    Grouped(1, b);
    Grouped(3, b);
    Grouped(4, b);
    Grouped(6, b);
    Grouped(7, b);
    Grouped(9, b);
  }

  /** Every nested Field goes into a record of its own, in list order. */
  lemma NestedTags(f: Field, fs: seq<Field>)
    ensures EncodeMessage(EmptyMessage) == []
    ensures EncodeMessage(EmptyMessage.(fields := [f] + fs))
            == Delimited(0x52, EncodeField(f)) + EncodeMessage(EmptyMessage.(fields := fs))
  {
    hide Flatten, Encode, Delimited, EncodeField;
    assert ([f] + fs)[1..] == fs;
    NoParts(MessageParts(EmptyMessage));
    OnlyPart(MessageParts(EmptyMessage.(fields := [f] + fs)), 9);
    OnlyPart(MessageParts(EmptyMessage.(fields := fs)), 9);
    Grouped(10, EncodeField(f));
  }

  lemma MessageInOrder(m: Message)
    ensures EncodeMessage(m)
            == EncodeMessage(EmptyMessage.(uuid := m.uuid)) + EncodeMessage(EmptyMessage.(timestamp := m.timestamp))
               + EncodeMessage(EmptyMessage.(msgType := m.msgType)) + EncodeMessage(EmptyMessage.(logger := m.logger))
               + EncodeMessage(EmptyMessage.(severity := m.severity)) + EncodeMessage(EmptyMessage.(payload := m.payload))
               + EncodeMessage(EmptyMessage.(envVersion := m.envVersion)) + EncodeMessage(EmptyMessage.(pid := m.pid))
               + EncodeMessage(EmptyMessage.(hostname := m.hostname)) + EncodeMessage(EmptyMessage.(fields := m.fields))
  {
    var ps := MessageParts(m);
    FirstPieces(m);
    NextPieces(m);
    LastPieces(m);
    hide MessageParts, EncodeMessage;
    FlattenAt(ps, 10);
    assert ps[..10] == ps;
    assert EncodeMessage(m) == Joined(ps, 10) by {
      WholeMessage(m);
    }
    JoinSteps(ps);
  }

  lemma WholeMessage(m: Message)
    ensures EncodeMessage(m) == Flatten(MessageParts(m))
  {
  }

  lemma FirstPieces(m: Message)
    ensures |MessageParts(m)| == 10
    ensures EncodeMessage(EmptyMessage.(uuid := m.uuid)) == MessageParts(m)[0]
    ensures EncodeMessage(EmptyMessage.(timestamp := m.timestamp)) == MessageParts(m)[1]
    ensures EncodeMessage(EmptyMessage.(msgType := m.msgType)) == MessageParts(m)[2]
  {
    hide Flatten, BlobRecord, WordRecord;
    OnlyPart(MessageParts(EmptyMessage.(uuid := m.uuid)), 0);
    OnlyPart(MessageParts(EmptyMessage.(timestamp := m.timestamp)), 1);
    OnlyPart(MessageParts(EmptyMessage.(msgType := m.msgType)), 2);
  }

  lemma NextPieces(m: Message)
    ensures EncodeMessage(EmptyMessage.(logger := m.logger)) == MessageParts(m)[3]
    ensures EncodeMessage(EmptyMessage.(severity := m.severity)) == MessageParts(m)[4]
    ensures EncodeMessage(EmptyMessage.(payload := m.payload)) == MessageParts(m)[5]
  {
    hide Flatten, BlobRecord, WordRecord;
    OnlyPart(MessageParts(EmptyMessage.(payload := m.payload)), 5);
    OnlyPart(MessageParts(EmptyMessage.(logger := m.logger)), 3);
    OnlyPart(MessageParts(EmptyMessage.(severity := m.severity)), 4);
  }

  lemma LastPieces(m: Message)
    ensures EncodeMessage(EmptyMessage.(envVersion := m.envVersion)) == MessageParts(m)[6]
    ensures EncodeMessage(EmptyMessage.(pid := m.pid)) == MessageParts(m)[7]
    ensures EncodeMessage(EmptyMessage.(hostname := m.hostname)) == MessageParts(m)[8]
    ensures EncodeMessage(EmptyMessage.(fields := m.fields)) == MessageParts(m)[9]
  {
    hide Flatten, BlobRecord, WordRecord;
    OnlyPart(MessageParts(EmptyMessage.(envVersion := m.envVersion)), 6);
    OnlyPart(MessageParts(EmptyMessage.(pid := m.pid)), 7);
    OnlyPart(MessageParts(EmptyMessage.(hostname := m.hostname)), 8);
    OnlyPart(MessageParts(EmptyMessage.(fields := m.fields)), 9);
  }

  /** The first `k` parts, joined from the left. */
  function Joined(ps: seq<seq<byte>>, k: nat): seq<byte>
    requires k <= |ps|
  {
    if k == 0 then [] else if k == 1 then ps[0] else Joined(ps, k - 1) + ps[k - 1]
  }

  lemma {:induction false} FlattenAt(ps: seq<seq<byte>>, k: nat)
    requires k <= |ps|
    ensures Flatten(ps[..k]) == Joined(ps, k)
  {
    if k > 0 {
      FlattenAt(ps, k - 1);
      assert ps[..k] == ps[..k - 1] + [ps[k - 1]];
      FlattenSnoc(ps[..k - 1], ps[k - 1]);
      assert [] + ps[0] == ps[0];
    }
  }

  lemma JoinSteps(ps: seq<seq<byte>>)
    ensures forall k :: 1 < k <= |ps| ==> Joined(ps, k) == Joined(ps, k - 1) + ps[k - 1]
    ensures |ps| > 0 ==> Joined(ps, 1) == ps[0]
  {
  }

  // ----------------------------------------------------------- unpacked lists

  /** The elements of a list, each in a record of its own. */
  function Unpacked(tag: byte, elements: seq<seq<byte>>): seq<byte> {
    if elements == [] then [] else [tag] + elements[0] + Unpacked(tag, elements[1..])
  }

  function IntegerElements(xs: seq<int64>): seq<seq<byte>> {
    seq(|xs|, i requires 0 <= i < |xs| => Encode(xs[i] % TWO64))
  }

  function DoubleElements(xs: seq<uint64>): seq<seq<byte>> {
    seq(|xs|, i requires 0 <= i < |xs| => Fixed64(xs[i]))
  }

  function BoolElements(xs: seq<bool>): seq<seq<byte>> {
    seq(|xs|, i requires 0 <= i < |xs| => [if xs[i] then 1 else 0])
  }

  lemma FirstUnpacked(tag: byte, elements: seq<seq<byte>>, rest: seq<byte>)
    requires elements != []
    ensures Unpacked(tag, elements) + rest == [tag] + (elements[0] + (Unpacked(tag, elements[1..]) + rest))
  {
  }

  /** Integers in records of their own are read as the packed block is: behind what is
    * already there, in their order. */
  lemma {:induction false} UnpackedIntegers(xs: seq<int64>, rest: seq<byte>, f: Field)
    ensures DecodeFieldFrom(Unpacked(0x30, IntegerElements(xs)) + rest, f)
            == DecodeFieldFrom(rest, f.(integers := f.integers + xs))
  {
    hide DecodeFieldFrom, Encode;
    if xs == [] {
      assert Unpacked(0x30, IntegerElements(xs)) + rest == rest && f.integers + xs == f.integers;
    } else {
      var v, more := xs[0] % TWO64, Unpacked(0x30, IntegerElements(xs[1..])) + rest;
      assert IntegerElements(xs)[1..] == IntegerElements(xs[1..]);
      FirstUnpacked(0x30, IntegerElements(xs), rest);
      RoundTrip(v, more);
      ModSmall(v, TWO64);
      SignedOf(xs[0], TWO63);
      var f' := f.(integers := f.integers + [xs[0]]);
      FieldTurn(6, 0, Encode(v) + more, f, |Encode(v)|, f');
      UnpackedIntegers(xs[1..], rest, f');
      assert f'.integers + xs[1..] == f.integers + xs;
    }
  }

  lemma {:induction false} UnpackedDoubles(xs: seq<uint64>, rest: seq<byte>, f: Field)
    ensures DecodeFieldFrom(Unpacked(0x39, DoubleElements(xs)) + rest, f)
            == DecodeFieldFrom(rest, f.(doubles := f.doubles + xs))
  {
    hide DecodeFieldFrom, Fixed64, FromFixed64;
    if xs == [] {
      assert Unpacked(0x39, DoubleElements(xs)) + rest == rest && f.doubles + xs == f.doubles;
    } else {
      var more := Unpacked(0x39, DoubleElements(xs[1..])) + rest;
      assert DoubleElements(xs)[1..] == DoubleElements(xs[1..]);
      FirstUnpacked(0x39, DoubleElements(xs), rest);
      FixedRoundTrip(xs[0], more);
      var f' := f.(doubles := f.doubles + [xs[0]]);
      FieldTurn(7, 1, Fixed64(xs[0]) + more, f, 8, f');
      assert (Fixed64(xs[0]) + more)[8..] == more;
      UnpackedDoubles(xs[1..], rest, f');
      assert f'.doubles + xs[1..] == f.doubles + xs;
    }
  }

  lemma {:induction false} UnpackedBools(xs: seq<bool>, rest: seq<byte>, f: Field)
    ensures DecodeFieldFrom(Unpacked(0x40, BoolElements(xs)) + rest, f)
            == DecodeFieldFrom(rest, f.(bools := f.bools + xs))
  {
    hide DecodeFieldFrom;
    if xs == [] {
      assert Unpacked(0x40, BoolElements(xs)) + rest == rest && f.bools + xs == f.bools;
    } else {
      var b, more := [if xs[0] then 1 else 0], Unpacked(0x40, BoolElements(xs[1..])) + rest;
      assert BoolElements(xs)[1..] == BoolElements(xs[1..]);
      FirstUnpacked(0x40, BoolElements(xs), rest);
      var f' := f.(bools := f.bools + [xs[0]]);
      FieldTurn(8, 0, b + more, f, 1, f');
      assert (b + more)[1..] == more;
      UnpackedBools(xs[1..], rest, f');
      assert f'.bools + xs[1..] == f.bools + xs;
    }
  }

  /** In any input, a list packed and the same list unpacked decode to the same. */
  lemma PackedOrNot(xs: seq<int64>, ds: seq<uint64>, bs: seq<bool>, rest: seq<byte>, f: Field)
    requires |Varints(xs)| < TWO63 && |Patterns(ds)| < TWO63 && |Flags(bs)| < TWO63
    ensures DecodeFieldFrom(Delimited(0x32, Varints(xs)) + rest, f)
            == DecodeFieldFrom(Unpacked(0x30, IntegerElements(xs)) + rest, f)
    ensures DecodeFieldFrom(Delimited(0x3a, Patterns(ds)) + rest, f)
            == DecodeFieldFrom(Unpacked(0x39, DoubleElements(ds)) + rest, f)
    ensures DecodeFieldFrom(Delimited(0x42, Flags(bs)) + rest, f)
            == DecodeFieldFrom(Unpacked(0x40, BoolElements(bs)) + rest, f)
  {
    hide DecodeFieldFrom, Unpacked, Delimited, Integers, Doubles, Bools, Varints, Patterns, Flags;
    UnpackedIntegers(xs, rest, f);
    UnpackedDoubles(ds, rest, f);
    UnpackedBools(bs, rest, f);
    VarintsAre(xs);
    PatternsAre(ds);
    FlagsAre(bs);
    Grouped(6, Varints(xs));
    Grouped(7, Patterns(ds));
    Grouped(8, Flags(bs));
    PackedBlock(xs, ds, bs, rest, f);
  }

  /** The packed block, an empty one included. */
  lemma PackedBlock(xs: seq<int64>, ds: seq<uint64>, bs: seq<bool>, rest: seq<byte>, f: Field)
    requires |Integers(xs)| < TWO63 && |Doubles(ds)| < TWO63 && |Bools(bs)| < TWO63
    ensures DecodeFieldFrom(BlobRecord(6, Integers(xs)) + rest, f) == DecodeFieldFrom(rest, f.(integers := f.integers + xs))
    ensures DecodeFieldFrom(BlobRecord(7, Doubles(ds)) + rest, f) == DecodeFieldFrom(rest, f.(doubles := f.doubles + ds))
    ensures DecodeFieldFrom(BlobRecord(8, Bools(bs)) + rest, f) == DecodeFieldFrom(rest, f.(bools := f.bools + bs))
  {
    hide DecodeFieldFrom, IntegerStep, DoubleStep, BoolStep, PackedBody, Integers, Doubles, Bools, BlobRecord;
    PackedPrefix(6, Integers(xs), rest);
    IntegerRun(xs, rest, f);
    FieldTurn(6, 2, PackedBody(Integers(xs), rest), f, |Encode(|Integers(xs)|)| + |Integers(xs)|,
              f.(integers := f.integers + xs));
    PackedPrefix(7, Doubles(ds), rest);
    DoubleRun(ds, rest, f);
    FieldTurn(7, 2, PackedBody(Doubles(ds), rest), f, |Encode(|Doubles(ds)|)| + |Doubles(ds)|,
              f.(doubles := f.doubles + ds));
    PackedPrefix(8, Bools(bs), rest);
    BoolRun(bs, rest, f);
    FieldTurn(8, 2, PackedBody(Bools(bs), rest), f, |Encode(|Bools(bs)|)| + |Bools(bs)|, f.(bools := f.bools + bs));
  }

  // ------------------------------------------------------------- wire types

  predicate HeaderWire(num: nat, wireType: nat) {
    if num in {1, 3, 5} then wireType == 0 else num in {4, 6} && wireType == 2
  }

  predicate FieldWire(num: nat, wireType: nat) {
    if num in {6, 8} then wireType in {0, 2}
    else if num == 7 then wireType in {1, 2}
    else if num == 2 then wireType == 0
    else num in {1, 3, 4, 5} && wireType == 2
  }

  predicate MessageWire(num: nat, wireType: nat) {
    if num in {2, 5, 8} then wireType == 0 else 1 <= num <= 10 && wireType == 2
  }

  /** A tag with any other wire type ends the decoding with an error, and changes
    * nothing any more. */
  lemma WrongWireType(num: FieldNumber, wireType: nat, body: seq<byte>, h: Header, f: Field, m: Message)
    requires wireType < 8
    ensures var s := [num * 8 + wireType] + body;
            && (!HeaderWire(num, wireType) ==> DecodeHeaderFrom(s, h) == Outcome(h, false))
            && (!FieldWire(num, wireType) ==> DecodeFieldFrom(s, f) == Outcome(f, false))
            && (!MessageWire(num, wireType) ==> DecodeMessageFrom(s, m) == Outcome(m, false))
  {
    hide NumberOf, TypeOf, ReadBlob, ReadLength, ReadIntegers, ReadDoubles, ReadBools;
    ReadTag(num, wireType);
    var s := [num * 8 + wireType] + body;
    assert Decode(s) == Some((num * 8 + wireType, 1)) && s[1..] == body;
  }
}
