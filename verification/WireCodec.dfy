/** Size, MarshalTo and Marshal as the generated code runs them: sizes added up
  * field by field, bytes written into one buffer behind a running index. */
module WireCodec {
  import opened Bytes
  import opened Varint
  import opened Wire

  // ------------------------------------------------------------------- sizes

  method BlobSize(b: Blob) returns (n: nat)
    requires |b| < TWO63
    ensures forall num: FieldNumber :: n == |BlobRecord(num, b)|
  {
    var v := Sov(|b|);
    n := 1 + |b| + v;
  }

  method OptBlobSize(o: Option<Blob>) returns (n: nat)
    requires o.Some? ==> |o.value| < TWO63
    ensures forall num: FieldNumber :: n == |OptBlob(num, o)|
  {
    n := 0;
    if o.Some? {
      n := BlobSize(o.value);
    }
  }

  method OptWordSize(o: Option<int>, m: nat) returns (n: nat)
    requires 0 < m <= TWO64
    ensures forall num: FieldNumber :: n == |OptWord(num, o, m)|
  {
    n := 0;
    if o.Some? {
      var v := Sov(o.value % m);
      n := 1 + v;
    }
  }

  method BlobsSize(bs: seq<Blob>) returns (n: nat)
    requires forall b :: b in bs ==> |b| < TWO63
    ensures forall num: FieldNumber :: n == |BlobRecords(num, bs)|
  {
    n := 0;
    for i := 0 to |bs|
      invariant forall num: FieldNumber :: n + |BlobRecords(num, bs[i..])| == |BlobRecords(num, bs)|
    {
      assert bs[i] in bs && bs[i..][1..] == bs[i + 1..];
      var size := BlobSize(bs[i]);
      n := n + size;
    }
  }

  method IntegersSize(xs: seq<int64>) returns (n: nat)
    ensures n == |Integers(xs)|
  {
    n := 0;
    for i := 0 to |xs|
      invariant n + |Integers(xs[i..])| == |Integers(xs)|
    {
      assert xs[i..][1..] == xs[i + 1..];
      var size := Sov(xs[i] % TWO64);
      n := n + size;
    }
  }

  lemma {:induction false} BlobsBelow(num: FieldNumber, bs: seq<Blob>)
    ensures forall b :: b in bs ==> |b| < |BlobRecords(num, bs)|
  {
    if bs != [] {
      BlobsBelow(num, bs[1..]);
      assert forall b :: b in bs ==> b == bs[0] || b in bs[1..];
    }
  }

  lemma FieldBelow(f: Field)
    ensures forall k :: 0 <= k < 8 ==> |FieldParts(f)[k]| <= |EncodeField(f)|
    ensures forall b :: b in f.strings || b in f.blobs ==> |b| < |EncodeField(f)|
    ensures |Integers(f.integers)| <= |EncodeField(f)|
    ensures |Doubles(f.doubles)| <= |EncodeField(f)| && |Bools(f.bools)| <= |EncodeField(f)|
    ensures f.name.Some? ==> |f.name.value| < |EncodeField(f)|
    ensures f.representation.Some? ==> |f.representation.value| < |EncodeField(f)|
  {
    PartsBelow(f);
    hide EncodeField, BlobRecords, Integers, Doubles, Bools, Encode;
    var ps := FieldParts(f);
    assert |ps[0]| <= |EncodeField(f)| && |ps[2]| <= |EncodeField(f)| && |ps[3]| <= |EncodeField(f)|;
    assert |ps[4]| <= |EncodeField(f)| && |ps[5]| <= |EncodeField(f)|;
    assert |ps[6]| <= |EncodeField(f)| && |ps[7]| <= |EncodeField(f)|;
    BlobsBelow(4, f.strings);
    BlobsBelow(5, f.blobs);
    EmptyLists();
  }

  lemma PartsBelow(f: Field)
    ensures forall k :: 0 <= k < 8 ==> |FieldParts(f)[k]| <= |EncodeField(f)|
  {
    var ps := FieldParts(f);
    forall k: nat | k < 8 ensures |ps[k]| <= |Flatten(ps)| {
      PartLength(ps, k);
    }
  }

  lemma EmptyLists()
    ensures Integers([]) == [] && Doubles([]) == [] && Bools([]) == []
  {
  }

  lemma FieldLength(f: Field)
    ensures var p := FieldParts(f);
            |EncodeField(f)| == |p[0]| + |p[1]| + |p[2]| + |p[3]| + |p[4]| + |p[5]| + |p[6]| + |p[7]|
  {
    var ps := FieldParts(f);
    forall k: nat | k < 8 ensures Flatten(ps[k..]) == ps[k] + Flatten(ps[k + 1..]) {
      FlattenTail(ps, k);
    }
    assert ps[0..] == ps && ps[8..] == [];
  }

  method PackedSize(count: nat, l: nat) returns (n: nat)
    requires l < TWO63
    ensures forall num: FieldNumber, payload: seq<byte> :: |payload| == l ==> n == |Packed(num, count, payload)|
  {
    n := 0;
    if count > 0 {
      var v := Sov(l);
      n := 1 + v + l;
    }
  }

  /** Field.Size: exactly the length of what MarshalTo writes. */
  method FieldSize(f: Field) returns (n: nat)
    requires |EncodeField(f)| < TWO63
    ensures n == |EncodeField(f)|
  {
    hide EncodeField;
    hide BlobRecords;
    hide BlobRecord;
    hide Packed;
    hide Integers;
    FieldBelow(f);
    FieldLength(f);
    var name := OptBlobSize(f.name);
    var valueType := OptWordSize(f.valueType, TWO64);
    var representation := OptBlobSize(f.representation);
    var strings := BlobsSize(f.strings);
    var blobs := BlobsSize(f.blobs);
    var l := IntegersSize(f.integers);
    var integers := PackedSize(|f.integers|, l);
    var doubles := PackedSize(|f.doubles|, |f.doubles| * 8);
    var bools := PackedSize(|f.bools|, |f.bools| * 1);
    n := name + valueType + representation + strings + blobs + integers + doubles + bools;
  }

  lemma {:induction false} FieldsBelow(fs: seq<Field>)
    ensures forall f :: f in fs ==> |EncodeField(f)| < |FieldRecords(fs)|
  {
    if fs != [] {
      FieldsBelow(fs[1..]);
      assert forall f :: f in fs ==> f == fs[0] || f in fs[1..];
    }
  }

  method FieldsSize(fs: seq<Field>) returns (n: nat)
    requires |FieldRecords(fs)| < TWO63
    ensures n == |FieldRecords(fs)|
  {
    hide EncodeField;
    FieldsBelow(fs);
    n := 0;
    for i := 0 to |fs|
      invariant n + |FieldRecords(fs[i..])| == |FieldRecords(fs)|
    {
      assert fs[i] in fs && fs[i..][1..] == fs[i + 1..];
      var l := FieldSize(fs[i]);
      var size := Sov(l);
      n := n + 1 + l + size;
    }
  }

  lemma MessageLength(m: Message)
    ensures var p := MessageParts(m);
            |EncodeMessage(m)| == |p[0]| + |p[1]| + |p[2]| + |p[3]| + |p[4]| + |p[5]| + |p[6]| + |p[7]|
                                  + |p[8]| + |p[9]|
  {
    var ps := MessageParts(m);
    forall k: nat | k < 10 ensures Flatten(ps[k..]) == ps[k] + Flatten(ps[k + 1..]) {
      FlattenTail(ps, k);
    }
    assert ps[0..] == ps && ps[10..] == [];
  }

  /** Message.Size, nested Fields included. */
  method MessageSize(m: Message) returns (n: nat)
    requires |EncodeMessage(m)| < TWO63
    ensures n == |EncodeMessage(m)|
  {
    hide EncodeMessage;
    MessageLength(m);
    var uuid := OptBlobSize(m.uuid);
    var timestamp := OptWordSize(m.timestamp, TWO64);
    var msgType := OptBlobSize(m.msgType);
    var logger := OptBlobSize(m.logger);
    var severity := OptWordSize(m.severity, TWO32);
    var payload := OptBlobSize(m.payload);
    var envVersion := OptBlobSize(m.envVersion);
    var pid := OptWordSize(m.pid, TWO32);
    var hostname := OptBlobSize(m.hostname);
    var fields := FieldsSize(m.fields);
    n := uuid + timestamp + msgType + logger + severity + payload + envVersion + pid + hostname + fields;
  }

  // ----------------------------------------------------------------- writing

  /** Go's copy(data[i:], b). */
  method Copy(data: array<byte>, i: nat, b: seq<byte>) returns (next: nat)
    requires i + |b| <= data.Length
    modifies data
    ensures next == i + |b|
    ensures data[..next] == old(data[..i]) + b
    ensures forall k :: next <= k < data.Length ==> data[k] == old(data[k])
  {
    forall k | 0 <= k < |b| {
      data[i + k] := b[k];
    }
    next := i + |b|;
  }

  method PutByte(data: array<byte>, i: nat, b: byte) returns (next: nat)
    requires i < data.Length
    modifies data
    ensures next == i + 1
    ensures data[..next] == old(data[..i]) + [b]
    ensures forall k :: next <= k < data.Length ==> data[k] == old(data[k])
  {
    data[i] := b;
    next := i + 1;
  }

  method PutBlob(data: array<byte>, i: nat, num: FieldNumber, b: Blob) returns (next: nat)
    requires |b| < TWO63 && i + |BlobRecord(num, b)| <= data.Length
    modifies data
    ensures next == i + |BlobRecord(num, b)|
    ensures data[..next] == old(data[..i]) + BlobRecord(num, b)
    ensures forall k :: next <= k < data.Length ==> data[k] == old(data[k])
  {
    next := PutByte(data, i, num * 8 + 2);
    next := PutVarint(data, next, |b|);
    next := Copy(data, next, b);
  }

  method PutOptBlob(data: array<byte>, i: nat, num: FieldNumber, o: Option<Blob>) returns (next: nat)
    requires (o.Some? ==> |o.value| < TWO63) && i + |OptBlob(num, o)| <= data.Length
    modifies data
    ensures next == i + |OptBlob(num, o)|
    ensures data[..next] == old(data[..i]) + OptBlob(num, o)
    ensures forall k :: next <= k < data.Length ==> data[k] == old(data[k])
  {
    next := i;
    if o.Some? {
      next := PutBlob(data, i, num, o.value);
    }
  }

  method PutWord(data: array<byte>, i: nat, num: FieldNumber, v: uint64) returns (next: nat)
    requires i + |WordRecord(num, v)| <= data.Length
    modifies data
    ensures next == i + |WordRecord(num, v)|
    ensures data[..next] == old(data[..i]) + WordRecord(num, v)
    ensures forall k :: next <= k < data.Length ==> data[k] == old(data[k])
  {
    next := PutByte(data, i, num * 8);
    next := PutVarint(data, next, v);
  }

  method PutOptWord(data: array<byte>, i: nat, num: FieldNumber, o: Option<int>, m: nat) returns (next: nat)
    requires 0 < m <= TWO64 && i + |OptWord(num, o, m)| <= data.Length
    modifies data
    ensures next == i + |OptWord(num, o, m)|
    ensures data[..next] == old(data[..i]) + OptWord(num, o, m)
    ensures forall k :: next <= k < data.Length ==> data[k] == old(data[k])
  {
    next := i;
    if o.Some? {
      next := PutWord(data, i, num, o.value % m);
    }
  }

  method PutBlobs(data: array<byte>, i: nat, num: FieldNumber, bs: seq<Blob>) returns (next: nat)
    requires (forall b :: b in bs ==> |b| < TWO63) && i + |BlobRecords(num, bs)| <= data.Length
    modifies data
    ensures next == i + |BlobRecords(num, bs)|
    ensures data[..next] == old(data[..i]) + BlobRecords(num, bs)
    ensures forall k :: next <= k < data.Length ==> data[k] == old(data[k])
  {
    next := i;
    ghost var goal := data[..i] + BlobRecords(num, bs);
    for k := 0 to |bs|
      invariant next + |BlobRecords(num, bs[k..])| == |goal| <= data.Length
      invariant data[..next] + BlobRecords(num, bs[k..]) == goal
      invariant forall j :: |goal| <= j < data.Length ==> data[j] == old(data[j])
    {
      ghost var rest := BlobRecords(num, bs[k + 1..]);
      assert bs[k] in bs && bs[k..][1..] == bs[k + 1..];
      ghost var before := data[..next];
      next := PutBlob(data, next, num, bs[k]);
      assert before + BlobRecord(num, bs[k]) + rest == before + (BlobRecord(num, bs[k]) + rest);
    }
  }

  /** The packed integers go through a scratch buffer of ten bytes a value. */
  method PackIntegers(xs: seq<int64>) returns (data2: array<byte>, j1: nat)
    ensures fresh(data2)
    ensures j1 == |Integers(xs)| <= data2.Length && data2[..j1] == Integers(xs)
  {
    hide Encode;
    data2 := new byte[|xs| * 10];
    j1 := 0;
    for k := 0 to |xs|
      invariant j1 <= k * 10
      invariant fresh(data2) && data2.Length == |xs| * 10
      invariant data2[..j1] + Integers(xs[k..]) == Integers(xs)
    {
      assert xs[k..][1..] == xs[k + 1..];
      EncodeLength64(xs[k] % TWO64);
      ghost var before := data2[..j1];
      j1 := PutVarint(data2, j1, xs[k] % TWO64);
      assert before + Encode(xs[k] % TWO64) + Integers(xs[k + 1..]) == before + Integers(xs[k..]);
    }
  }

  method PutIntegers(data: array<byte>, i: nat, xs: seq<int64>) returns (next: nat)
    requires |Integers(xs)| < TWO63 && i + |Packed(6, |xs|, Integers(xs))| <= data.Length
    modifies data
    ensures next == i + |Packed(6, |xs|, Integers(xs))|
    ensures data[..next] == old(data[..i]) + Packed(6, |xs|, Integers(xs))
    ensures forall k :: next <= k < data.Length ==> data[k] == old(data[k])
  {
    next := i;
    if |xs| > 0 {
      var data2, j1 := PackIntegers(xs);
      next := PutBlob(data, i, 6, data2[..j1]);
    }
  }

  method PutFixed64(data: array<byte>, i: nat, v: uint64) returns (next: nat)
    requires i + 8 <= data.Length
    modifies data
    ensures next == i + 8
    ensures data[..next] == old(data[..i]) + Fixed64(v)
    ensures forall k :: next <= k < data.Length ==> data[k] == old(data[k])
  {
    next := Copy(data, i, Fixed64(v));
  }

  lemma Spliced(a: seq<byte>, b: seq<byte>, c: seq<byte>)
    ensures a + b + c == a + (b + c)
  {
  }

  /** The tag and the length of a packed list. */
  method PutHead(data: array<byte>, i: nat, num: FieldNumber, n: nat) returns (next: nat)
    requires n < TWO63 && i + 1 + |Encode(n)| <= data.Length
    modifies data
    ensures next == i + 1 + |Encode(n)|
    ensures data[..next] == old(data[..i]) + ([num * 8 + 2] + Encode(n))
    ensures forall k :: next <= k < data.Length ==> data[k] == old(data[k])
  {
    hide Encode;
    next := PutByte(data, i, num * 8 + 2);
    next := PutVarint(data, next, n);
    Spliced(old(data[..i]), [num * 8 + 2], Encode(n));
  }

  lemma PackedSplit(a: seq<byte>, num: FieldNumber, count: nat, payload: seq<byte>)
    ensures var p := Packed(num, count, payload); var head := [num * 8 + 2] + Encode(|payload|);
            if count == 0 then p == [] && a + p == a
            else a + p == a + head + payload && |p| == 1 + |Encode(|payload|)| + |payload|
  {
    hide Encode;
    Spliced([num * 8 + 2], Encode(|payload|), payload);
    Spliced(a, [num * 8 + 2] + Encode(|payload|), payload);
  }

  method PutDoubles(data: array<byte>, i: nat, xs: seq<uint64>) returns (next: nat)
    requires |Doubles(xs)| < TWO63 && i + |Packed(7, |xs|, Doubles(xs))| <= data.Length
    modifies data
    ensures next == i + |Packed(7, |xs|, Doubles(xs))|
    ensures data[..next] == old(data[..i]) + Packed(7, |xs|, Doubles(xs))
    ensures forall k :: next <= k < data.Length ==> data[k] == old(data[k])
  {
    hide Encode, Doubles, Packed;
    next := i;
    PackedSplit(data[..i], 7, |xs|, Doubles(xs));
    if |xs| > 0 {
      next := PutHead(data, i, 7, |xs| * 8);
      next := FillDoubles(data, next, xs);
    }
  }

  method FillDoubles(data: array<byte>, i: nat, xs: seq<uint64>) returns (next: nat)
    requires i + |Doubles(xs)| <= data.Length
    modifies data
    ensures next == i + |Doubles(xs)| && data[..next] == old(data[..i]) + Doubles(xs)
    ensures forall k :: next <= k < data.Length ==> data[k] == old(data[k])
  {
    hide Fixed64, Doubles;
    next := i;
    ghost var goal := data[..i] + Doubles(xs);
    assert xs[0..] == xs;
    for k := 0 to |xs|
      invariant i <= next && next + |Doubles(xs[k..])| == |goal| <= data.Length
      invariant data[..next] + Doubles(xs[k..]) == goal
      invariant forall j :: |goal| <= j < data.Length ==> data[j] == old(data[j])
    {
      DoublesFrom(xs, k);
      ghost var before := data[..next];
      next := PutFixed64(data, next, xs[k]);
      Spliced(before, Fixed64(xs[k]), Doubles(xs[k + 1..]));
    }
    NoDoubles(xs[|xs|..]);
  }

  lemma DoublesFrom(xs: seq<uint64>, k: nat)
    requires k < |xs|
    ensures Doubles(xs[k..]) == Fixed64(xs[k]) + Doubles(xs[k + 1..])
  {
    hide Fixed64;
    assert xs[k..][1..] == xs[k + 1..];
  }

  lemma NoDoubles(xs: seq<uint64>)
    requires xs == []
    ensures Doubles(xs) == []
  {
  }

  method PutBools(data: array<byte>, i: nat, xs: seq<bool>) returns (next: nat)
    requires |Bools(xs)| < TWO63 && i + |Packed(8, |xs|, Bools(xs))| <= data.Length
    modifies data
    ensures next == i + |Packed(8, |xs|, Bools(xs))|
    ensures data[..next] == old(data[..i]) + Packed(8, |xs|, Bools(xs))
    ensures forall k :: next <= k < data.Length ==> data[k] == old(data[k])
  {
    hide Encode, Bools, Packed;
    next := i;
    PackedSplit(data[..i], 8, |xs|, Bools(xs));
    if |xs| > 0 {
      next := PutHead(data, i, 8, |xs|);
      next := FillBools(data, next, xs);
    }
  }

  method FillBools(data: array<byte>, i: nat, xs: seq<bool>) returns (next: nat)
    requires i + |Bools(xs)| <= data.Length
    modifies data
    ensures next == i + |Bools(xs)| && data[..next] == old(data[..i]) + Bools(xs)
    ensures forall k :: next <= k < data.Length ==> data[k] == old(data[k])
  {
    hide Bools;
    next := i;
    ghost var goal := data[..i] + Bools(xs);
    assert xs[0..] == xs;
    for k := 0 to |xs|
      invariant i <= next && next + |Bools(xs[k..])| == |goal| <= data.Length
      invariant data[..next] + Bools(xs[k..]) == goal
      invariant forall j :: |goal| <= j < data.Length ==> data[j] == old(data[j])
    {
      BoolsFrom(xs, k);
      ghost var before := data[..next];
      var b: byte := if xs[k] then 1 else 0;
      next := PutByte(data, next, b);
      Spliced(before, [b], Bools(xs[k + 1..]));
    }
    NoBools(xs[|xs|..]);
  }

  lemma BoolsFrom(xs: seq<bool>, k: nat)
    requires k < |xs|
    ensures Bools(xs[k..]) == [if xs[k] then 1 else 0] + Bools(xs[k + 1..])
  {
    assert xs[k..][1..] == xs[k + 1..];
  }

  lemma NoBools(xs: seq<bool>)
    requires xs == []
    ensures Bools(xs) == []
  {
  }

  /** One more part is in place: the rest still follows it up to the goal. */
  lemma Advance(ps: seq<seq<byte>>, k: nat, before: seq<byte>, now: seq<byte>, goal: seq<byte>)
    requires k < |ps| && before + Flatten(ps[k..]) == goal
    requires now == before + ps[k]
    ensures now + Flatten(ps[k + 1..]) == goal
    ensures k + 1 < |ps| ==> |now| + |ps[k + 1]| <= |goal|
  {
    FlattenTail(ps, k);
    if k + 1 < |ps| {
      FlattenTail(ps, k + 1);
    }
  }

  /** Header.MarshalTo. */
  method MarshalHeaderTo(data: array<byte>, i: nat, h: Header) returns (next: nat)
    requires |EncodeHeader(h)| < TWO63 && i + |EncodeHeader(h)| <= data.Length
    modifies data
    ensures next == i + |EncodeHeader(h)|
    ensures data[..next] == old(data[..i]) + EncodeHeader(h)
    ensures forall k :: next <= k < data.Length ==> data[k] == old(data[k])
  {
    ghost var ps := HeaderParts(h);
    assert ps[0..] == ps;
    FlattenTail(ps, 0);
    ghost var start := data[..i];
    ghost var goal := start + EncodeHeader(h);
    next := PutOptWord(data, i, 1, h.messageLength, TWO64);
    ghost var s1 := data[..next];
    Advance(ps, 0, start, s1, goal);
    next := PutOptWord(data, next, 3, h.hashFunction, TWO64);
    ghost var s2 := data[..next];
    Advance(ps, 1, s1, s2, goal);
    next := PutOptBlob(data, next, 4, h.signer);
    ghost var s3 := data[..next];
    Advance(ps, 2, s2, s3, goal);
    next := PutOptWord(data, next, 5, h.keyVersion, TWO64);
    ghost var s4 := data[..next];
    Advance(ps, 3, s3, s4, goal);
    next := PutOptBlob(data, next, 6, h.hmac);
    Advance(ps, 4, s4, data[..next], goal);
    assert ps[5..] == [];
  }

  /** Field.MarshalTo. */
  method MarshalFieldTo(data: array<byte>, i: nat, f: Field) returns (next: nat)
    requires |EncodeField(f)| < TWO63 && i + |EncodeField(f)| <= data.Length
    modifies data
    ensures next == i + |EncodeField(f)|
    ensures data[..next] == old(data[..i]) + EncodeField(f)
    ensures forall k :: next <= k < data.Length ==> data[k] == old(data[k])
  {
    hide BlobRecords, Encode, Integers, Doubles, Bools, BlobRecord, WordRecord;
    FieldBelow(f);
    ghost var ps := FieldParts(f);
    assert ps[0..] == ps;
    FlattenTail(ps, 0);
    assert EncodeField(f) == Flatten(ps);
    hide Flatten, EncodeField;
    ghost var start := data[..i];
    ghost var goal := start + EncodeField(f);
    next := PutOptBlob(data, i, 1, f.name);
    ghost var s1 := data[..next];
    Advance(ps, 0, start, s1, goal);
    next := PutOptWord(data, next, 2, f.valueType, TWO64);
    ghost var s2 := data[..next];
    Advance(ps, 1, s1, s2, goal);
    next := PutOptBlob(data, next, 3, f.representation);
    Advance(ps, 2, s2, data[..next], goal);
    next := MarshalLists(data, next, f, goal);
  }

  /** The repeated and packed lists that end Field.MarshalTo. */
  method MarshalLists(data: array<byte>, i: nat, f: Field, ghost goal: seq<byte>) returns (next: nat)
    requires |EncodeField(f)| < TWO63 && i <= |goal| <= data.Length
    requires data[..i] + Flatten(FieldParts(f)[3..]) == goal
    modifies data
    ensures next == |goal| && data[..next] == goal
    ensures forall k :: next <= k < data.Length ==> data[k] == old(data[k])
  {
    hide BlobRecords, Encode, BlobRecord, EncodeField;
    FieldBelow(f);
    ghost var ps := FieldParts(f);
    FlattenTail(ps, 3);
    assert ps[8..] == [] && Flatten(ps[8..]) == [];
    hide Flatten, Integers, Doubles, Bools;
    ghost var s3 := data[..i];
    next := PutBlobs(data, i, 4, f.strings);
    ghost var s4 := data[..next];
    Advance(ps, 3, s3, s4, goal);
    next := PutBlobs(data, next, 5, f.blobs);
    ghost var s5 := data[..next];
    Advance(ps, 4, s4, s5, goal);
    next := PutIntegers(data, next, f.integers);
    ghost var s6 := data[..next];
    Advance(ps, 5, s5, s6, goal);
    next := PutDoubles(data, next, f.doubles);
    ghost var s7 := data[..next];
    Advance(ps, 6, s6, s7, goal);
    next := PutBools(data, next, f.bools);
    Advance(ps, 7, s7, data[..next], goal);
  }

  /** The nested Fields: tag, Field.Size, then Field.MarshalTo in place. */
  method PutFields(data: array<byte>, i: nat, fs: seq<Field>) returns (next: nat)
    requires |FieldRecords(fs)| < TWO63 && i + |FieldRecords(fs)| <= data.Length
    modifies data
    ensures next == i + |FieldRecords(fs)|
    ensures data[..next] == old(data[..i]) + FieldRecords(fs)
    ensures forall k :: next <= k < data.Length ==> data[k] == old(data[k])
  {
    hide EncodeField;
    FieldsBelow(fs);
    next := i;
    ghost var goal := data[..i] + FieldRecords(fs);
    for k := 0 to |fs|
      invariant next <= |goal| <= data.Length
      invariant data[..next] + FieldRecords(fs[k..]) == goal
      invariant forall j :: |goal| <= j < data.Length ==> data[j] == old(data[j])
    {
      ghost var rest := FieldRecords(fs[k + 1..]);
      assert fs[k] in fs && fs[k..][1..] == fs[k + 1..];
      ghost var before := data[..next];
      next := PutField(data, next, fs[k]);
      assert before + BlobRecord(10, EncodeField(fs[k])) + rest
          == before + (BlobRecord(10, EncodeField(fs[k])) + rest);
    }
  }

  method PutField(data: array<byte>, i: nat, f: Field) returns (next: nat)
    requires |EncodeField(f)| < TWO63 && i + |BlobRecord(10, EncodeField(f))| <= data.Length
    modifies data
    ensures next == i + |BlobRecord(10, EncodeField(f))|
    ensures data[..next] == old(data[..i]) + BlobRecord(10, EncodeField(f))
    ensures forall k :: next <= k < data.Length ==> data[k] == old(data[k])
  {
    hide EncodeField;
    next := PutByte(data, i, 0x52);
    var size := FieldSize(f);
    next := PutVarint(data, next, size);
    next := MarshalFieldTo(data, next, f);
  }

  /** Message.MarshalTo: exactly the encoding, in bounds, nothing else touched. */
  method MarshalMessageTo(data: array<byte>, i: nat, m: Message) returns (next: nat)
    requires |EncodeMessage(m)| < TWO63 && i + |EncodeMessage(m)| <= data.Length
    modifies data
    ensures next == i + |EncodeMessage(m)|
    ensures data[..next] == old(data[..i]) + EncodeMessage(m)
    ensures forall k :: next <= k < data.Length ==> data[k] == old(data[k])
  {
    assert MessageParts(m)[0..] == MessageParts(m);
    assert EncodeMessage(m) == Flatten(MessageParts(m)[0..]);
    hide EncodeMessage, MessageParts, Flatten;
    ghost var goal := data[..i] + EncodeMessage(m);
    next := MarshalFirst(data, i, m, goal);
    next := MarshalRest(data, next, m, goal);
  }

  /** The parts up to the logger. */
  method MarshalFirst(data: array<byte>, i: nat, m: Message, ghost goal: seq<byte>) returns (next: nat)
    requires |EncodeMessage(m)| < TWO63 && i <= |goal| <= data.Length
    requires data[..i] + Flatten(MessageParts(m)[0..]) == goal
    modifies data
    ensures next <= |goal| && data[..next] + Flatten(MessageParts(m)[4..]) == goal
    ensures forall k :: |goal| <= k < data.Length ==> data[k] == old(data[k])
  {
    hide Encode, FieldRecords, BlobRecord, WordRecord;
    MessageBelow(m);
    ghost var ps := MessageParts(m);
    FlattenTail(ps, 0);
    hide Flatten;
    ghost var s0 := data[..i];
    next := PutOptBlob(data, i, 1, m.uuid);
    ghost var s1 := data[..next];
    Advance(ps, 0, s0, s1, goal);
    next := PutOptWord(data, next, 2, m.timestamp, TWO64);
    ghost var s2 := data[..next];
    Advance(ps, 1, s1, s2, goal);
    next := PutOptBlob(data, next, 3, m.msgType);
    ghost var s3 := data[..next];
    Advance(ps, 2, s2, s3, goal);
    next := PutOptBlob(data, next, 4, m.logger);
    Advance(ps, 3, s3, data[..next], goal);
  }

  lemma MessageBelow(m: Message)
    ensures forall k :: 0 <= k < 10 ==> |MessageParts(m)[k]| <= |EncodeMessage(m)|
    ensures forall o :: o in [m.uuid, m.msgType, m.logger, m.payload, m.envVersion, m.hostname] && o.Some? ==>
              |o.value| < |EncodeMessage(m)|
  {
    var ps := MessageParts(m);
    forall k: nat | k < 10 ensures |ps[k]| <= |Flatten(ps)| {
      PartLength(ps, k);
    }
    hide Encode, Flatten, FieldRecords, WordRecord;
    assert |ps[0]| <= |Flatten(ps)| && |ps[2]| <= |Flatten(ps)| && |ps[3]| <= |Flatten(ps)|;
    assert |ps[5]| <= |Flatten(ps)| && |ps[6]| <= |Flatten(ps)| && |ps[8]| <= |Flatten(ps)|;
  }

  method MarshalRest(data: array<byte>, i: nat, m: Message, ghost goal: seq<byte>) returns (next: nat)
    requires |EncodeMessage(m)| < TWO63 && i <= |goal| <= data.Length
    requires data[..i] + Flatten(MessageParts(m)[4..]) == goal
    modifies data
    ensures next == |goal| && data[..next] == goal
    ensures forall k :: next <= k < data.Length ==> data[k] == old(data[k])
  {
    hide Encode, FieldRecords, BlobRecord, WordRecord;
    MessageBelow(m);
    ghost var ps := MessageParts(m);
    FlattenTail(ps, 4);
    assert ps[10..] == [] && Flatten(ps[10..]) == [];
    hide Flatten;
    ghost var s4 := data[..i];
    next := PutOptWord(data, i, 5, m.severity, TWO32);
    ghost var s5 := data[..next];
    Advance(ps, 4, s4, s5, goal);
    next := PutOptBlob(data, next, 6, m.payload);
    ghost var s6 := data[..next];
    Advance(ps, 5, s5, s6, goal);
    next := PutOptBlob(data, next, 7, m.envVersion);
    ghost var s7 := data[..next];
    Advance(ps, 6, s6, s7, goal);
    next := PutOptWord(data, next, 8, m.pid, TWO32);
    ghost var s8 := data[..next];
    Advance(ps, 7, s7, s8, goal);
    next := PutOptBlob(data, next, 9, m.hostname);
    ghost var s9 := data[..next];
    Advance(ps, 8, s8, s9, goal);
    next := PutFields(data, next, m.fields);
    Advance(ps, 9, s9, data[..next], goal);
  }

  /** Message.Marshal: a buffer of Size() bytes holds the encoding exactly. */
  method MarshalMessage(m: Message) returns (out: seq<byte>)
    requires |EncodeMessage(m)| < TWO63
    ensures out == EncodeMessage(m)
  {
    hide EncodeMessage;
    var size := MessageSize(m);
    var data := new byte[size];
    var n := MarshalMessageTo(data, 0, m);
    out := data[..n];
  }
}
