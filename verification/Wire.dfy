/** The protobuf wire format of Header, Field and Message: what Marshal lays
  * down, what Unmarshal makes of any input, and that the second undoes the first.
  *
  * A Go pointer or byte slice that may be nil is an `Option`; a nil and an empty
  * repeated list are the same `seq`.  A float64 is its 64-bit pattern.
  */
module Wire {
  import opened Bytes
  import opened Varint

  type Blob = seq<byte>

  datatype Header = Header(
    messageLength: Option<uint32>,
    hashFunction: Option<int32>,
    signer: Option<Blob>,
    keyVersion: Option<uint32>,
    hmac: Option<Blob>)

  datatype Field = Field(
    name: Option<Blob>,
    valueType: Option<int32>,
    representation: Option<Blob>,
    strings: seq<Blob>,
    blobs: seq<Blob>,
    integers: seq<int64>,
    doubles: seq<uint64>,
    bools: seq<bool>)

  datatype Message = Message(
    uuid: Option<Blob>,
    timestamp: Option<int64>,
    msgType: Option<Blob>,
    logger: Option<Blob>,
    severity: Option<int32>,
    payload: Option<Blob>,
    envVersion: Option<Blob>,
    pid: Option<int32>,
    hostname: Option<Blob>,
    fields: seq<Field>)

  const EmptyHeader := Header(None, None, None, None, None)
  const EmptyField := Field(None, None, None, [], [], [], [], [])
  const EmptyMessage := Message(None, None, None, None, None, None, None, None, None, [])

  // ---------------------------------------------------------------- encoding

  type FieldNumber = n: int | 1 <= n <= 15 witness 1

  /** A length-delimited record: tag, length, contents (wire type 2). */
  function BlobRecord(num: FieldNumber, b: Blob): seq<byte> {
    [num * 8 + 2] + (Encode(|b|) + b)
  }

  /** A varint record (wire type 0). */
  function WordRecord(num: FieldNumber, v: nat): seq<byte> {
    [num * 8] + Encode(v)
  }

  function OptBlob(num: FieldNumber, o: Option<Blob>): seq<byte> {
    if o.Some? then BlobRecord(num, o.value) else []
  }

  /** An optional integer, written as the word of modulus `m` it is cast to. */
  function OptWord(num: FieldNumber, o: Option<int>, m: int): seq<byte>
    requires m > 0
  {
    if o.Some? then WordRecord(num, o.value % m) else []
  }

  function BlobRecords(num: FieldNumber, bs: seq<Blob>): seq<byte> {
    if bs == [] then [] else BlobRecord(num, bs[0]) + BlobRecords(num, bs[1..])
  }

  function Integers(xs: seq<int64>): seq<byte> {
    if xs == [] then [] else Encode(xs[0] % TWO64) + Integers(xs[1..])
  }

  /** Eight bytes, least significant first. */
  function Fixed64(v: uint64): (s: seq<byte>)
    ensures |s| == 8
  {
    [v % 256, v / 0x100 % 256, v / 0x1_0000 % 256, v / 0x100_0000 % 256,
     v / 0x1_0000_0000 % 256, v / 0x100_0000_0000 % 256,
     v / 0x1_0000_0000_0000 % 256, v / 0x100_0000_0000_0000 % 256]
  }

  function Doubles(xs: seq<uint64>): (s: seq<byte>)
    ensures |s| == 8 * |xs|
  {
    if xs == [] then [] else Fixed64(xs[0]) + Doubles(xs[1..])
  }

  function Bools(xs: seq<bool>): (s: seq<byte>)
    ensures |s| == |xs|
  {
    if xs == [] then [] else [if xs[0] then 1 else 0] + Bools(xs[1..])
  }

  /** A packed list, which is left out altogether when it is empty. */
  function Packed(num: FieldNumber, count: nat, payload: seq<byte>): seq<byte> {
    if count == 0 then [] else BlobRecord(num, payload)
  }

  function HeaderParts(h: Header): seq<seq<byte>> {
    [OptWord(1, h.messageLength, TWO64), OptWord(3, h.hashFunction, TWO64), OptBlob(4, h.signer),
     OptWord(5, h.keyVersion, TWO64), OptBlob(6, h.hmac)]
  }

  function FieldParts(f: Field): seq<seq<byte>> {
    [OptBlob(1, f.name), OptWord(2, f.valueType, TWO64), OptBlob(3, f.representation),
     BlobRecords(4, f.strings), BlobRecords(5, f.blobs),
     Packed(6, |f.integers|, Integers(f.integers)),
     Packed(7, |f.doubles|, Doubles(f.doubles)),
     Packed(8, |f.bools|, Bools(f.bools))]
  }

  function EncodeHeader(h: Header): seq<byte> { Flatten(HeaderParts(h)) }

  function EncodeField(f: Field): seq<byte> { Flatten(FieldParts(f)) }

  function FieldRecords(fs: seq<Field>): seq<byte> {
    if fs == [] then [] else BlobRecord(10, EncodeField(fs[0])) + FieldRecords(fs[1..])
  }

  function MessageParts(m: Message): seq<seq<byte>> {
    [OptBlob(1, m.uuid), OptWord(2, m.timestamp, TWO64), OptBlob(3, m.msgType),
     OptBlob(4, m.logger), OptWord(5, m.severity, TWO32), OptBlob(6, m.payload),
     OptBlob(7, m.envVersion), OptWord(8, m.pid, TWO32), OptBlob(9, m.hostname),
     FieldRecords(m.fields)]
  }

  function EncodeMessage(m: Message): seq<byte> { Flatten(MessageParts(m)) }

  // ---------------------------------------------------------------- decoding

  /** What decoding leaves behind: the object as filled so far, and whether the
    * input was read to its end without an error. */
  datatype Outcome<T> = Outcome(value: T, ok: bool)

  /** One record handled: the object afterwards and the bytes used, or an error. */
  datatype Step<T> = Fail(value: T) | Next(value: T, used: nat)

  /** A length, cast to int, and the bytes it takes; None when the input ends
    * first or does not hold that many bytes more. */
  function ReadLength(s: seq<byte>): (r: Option<(nat, nat)>)
    ensures r.Some? ==> r.value.1 >= 1 && r.value.1 + r.value.0 <= |s|
  {
    match Decode(s)
    case None => None
    case Some(p) =>
      var len := p.0 % TWO64;
      if len < TWO63 && p.1 + len <= |s| then Some((len, p.1)) else None
  }

  function ReadBlob(s: seq<byte>): (r: Option<(Blob, nat)>)
    ensures r.Some? ==> 1 <= r.value.1 <= |s|
  {
    match ReadLength(s)
    case None => None
    case Some(p) => Some((s[p.1..p.1 + p.0], p.1 + p.0))
  }

  /** A packed list that is being read: what was appended, how many bytes went,
    * and whether the input sufficed.  The loop stops once `budget` bytes are used. */
  datatype Run<T> = Run(items: seq<T>, used: nat, ok: bool)

  function ReadIntegers(s: seq<byte>, budget: int): (r: Run<int64>)
    ensures r.used <= |s|
    decreases budget
  {
    if budget <= 0 then Run([], 0, true)
    else
      match Decode(s)
      case None => Run([], 0, false)
      case Some(p) =>
        var r := ReadIntegers(s[p.1..], budget - p.1);
        Run([Signed(p.0 % TWO64, TWO63)] + r.items, p.1 + r.used, r.ok)
  }

  function FromFixed64(s: seq<byte>): (v: uint64)
    requires |s| >= 8
  {
    var b0: int, b1: int, b2: int, b3: int := s[0], s[1], s[2], s[3];
    var b4: int, b5: int, b6: int, b7: int := s[4], s[5], s[6], s[7];
    b0 + 0x100 * b1 + 0x1_0000 * b2 + 0x100_0000 * b3 + 0x1_0000_0000 * b4
    + 0x100_0000_0000 * b5 + 0x1_0000_0000_0000 * b6 + 0x100_0000_0000_0000 * b7
  }

  function ReadDoubles(s: seq<byte>, budget: int): (r: Run<uint64>)
    ensures r.used <= |s|
    decreases budget
  {
    if budget <= 0 then Run([], 0, true)
    else if |s| < 8 then Run([], 0, false)
    else
      var r := ReadDoubles(s[8..], budget - 8);
      Run([FromFixed64(s)] + r.items, 8 + r.used, r.ok)
  }

  function ReadBools(s: seq<byte>, budget: int): (r: Run<bool>)
    ensures r.used <= |s|
    decreases budget
  {
    if budget <= 0 then Run([], 0, true)
    else
      match Decode(s)
      case None => Run([], 0, false)
      case Some(p) =>
        var r := ReadBools(s[p.1..], budget - p.1);
        Run([p.0 % TWO64 != 0] + r.items, p.1 + r.used, r.ok)
  }

  /** int32(wire >> 3), as an unsigned number: only small ones select a case. */
  function NumberOf(wire: nat): nat { wire % TWO64 / 8 % TWO32 }

  function TypeOf(wire: nat): nat { wire % TWO64 % 8 }

  function SetHeaderBlob(h: Header, num: nat, b: Blob): Header {
    if num == 4 then h.(signer := Some(b)) else h.(hmac := Some(b))
  }

  function SetHeaderWord(h: Header, num: nat, v: nat): Header {
    match num
    case 1 => h.(messageLength := Some(v % TWO32))
    case 3 => h.(hashFunction := Some(Signed(v % TWO32, TWO31)))
    case _ => h.(keyVersion := Some(v % TWO32))
  }

  function HeaderStep(h: Header, num: nat, wireType: nat, s: seq<byte>): (r: Step<Header>)
    ensures r.Next? ==> r.used <= |s|
  {
    if num in {1, 3, 5} then
      if wireType != 0 then Fail(h) else
      match Decode(s)
      case None => Fail(h)
      case Some(p) => Next(SetHeaderWord(h, num, p.0), p.1)
    else if num in {4, 6} then
      if wireType != 2 then Fail(h) else
      match ReadBlob(s)
      case None => Fail(h)
      case Some(p) => Next(SetHeaderBlob(h, num, p.0), p.1)
    else Fail(h)
  }

  function SetFieldBlob(f: Field, num: nat, b: Blob): Field {
    match num
    case 1 => f.(name := Some(b))
    case 3 => f.(representation := Some(b))
    case 4 => f.(strings := f.strings + [b])
    case _ => f.(blobs := f.blobs + [b])
  }

  /** A packed list, or the same element type unpacked under its own wire type. */
  function IntegerStep(f: Field, wireType: nat, s: seq<byte>): (r: Step<Field>)
    ensures r.Next? ==> r.used <= |s|
  {
    if wireType == 2 then
      match ReadLength(s)
      case None => Fail(f)
      case Some(p) =>
        var r := ReadIntegers(s[p.1..], p.0);
        var f' := f.(integers := f.integers + r.items);
        if r.ok then Next(f', p.1 + r.used) else Fail(f')
    else if wireType == 0 then
      match Decode(s)
      case None => Fail(f)
      case Some(p) => Next(f.(integers := f.integers + [Signed(p.0 % TWO64, TWO63)]), p.1)
    else Fail(f)
  }

  function DoubleStep(f: Field, wireType: nat, s: seq<byte>): (r: Step<Field>)
    ensures r.Next? ==> r.used <= |s|
  {
    if wireType == 2 then
      match ReadLength(s)
      case None => Fail(f)
      case Some(p) =>
        var r := ReadDoubles(s[p.1..], p.0);
        var f' := f.(doubles := f.doubles + r.items);
        if r.ok then Next(f', p.1 + r.used) else Fail(f')
    else if wireType == 1 then
      if |s| < 8 then Fail(f) else Next(f.(doubles := f.doubles + [FromFixed64(s)]), 8)
    else Fail(f)
  }

  function BoolStep(f: Field, wireType: nat, s: seq<byte>): (r: Step<Field>)
    ensures r.Next? ==> r.used <= |s|
  {
    if wireType == 2 then
      match ReadLength(s)
      case None => Fail(f)
      case Some(p) =>
        var r := ReadBools(s[p.1..], p.0);
        var f' := f.(bools := f.bools + r.items);
        if r.ok then Next(f', p.1 + r.used) else Fail(f')
    else if wireType == 0 then
      match Decode(s)
      case None => Fail(f)
      case Some(p) => Next(f.(bools := f.bools + [p.0 % TWO64 != 0]), p.1)
    else Fail(f)
  }

  function FieldStep(f: Field, num: nat, wireType: nat, s: seq<byte>): (r: Step<Field>)
    ensures r.Next? ==> r.used <= |s|
  {
    if num in {1, 3, 4, 5} then
      if wireType != 2 then Fail(f) else
      match ReadBlob(s)
      case None => Fail(f)
      case Some(p) => Next(SetFieldBlob(f, num, p.0), p.1)
    else if num == 2 then
      if wireType != 0 then Fail(f) else
      match Decode(s)
      case None => Fail(f)
      case Some(p) => Next(f.(valueType := Some(Signed(p.0 % TWO32, TWO31))), p.1)
    else if num == 6 then IntegerStep(f, wireType, s)
    else if num == 7 then DoubleStep(f, wireType, s)
    else if num == 8 then BoolStep(f, wireType, s)
    else Fail(f)
  }

  function DecodeHeaderFrom(s: seq<byte>, h: Header): Outcome<Header> {
    if s == [] then Outcome(h, true)
    else
      match Decode(s)
      case None => Outcome(h, false)
      case Some(tag) =>
        match HeaderStep(h, NumberOf(tag.0), TypeOf(tag.0), s[tag.1..])
        case Fail(h') => Outcome(h', false)
        case Next(h', used) => DecodeHeaderFrom(s[tag.1 + used..], h')
  }

  function DecodeFieldFrom(s: seq<byte>, f: Field): Outcome<Field> {
    if s == [] then Outcome(f, true)
    else
      match Decode(s)
      case None => Outcome(f, false)
      case Some(tag) =>
        match FieldStep(f, NumberOf(tag.0), TypeOf(tag.0), s[tag.1..])
        case Fail(f') => Outcome(f', false)
        case Next(f', used) => DecodeFieldFrom(s[tag.1 + used..], f')
  }

  function SetMessageBlob(m: Message, num: nat, b: Blob): Message {
    match num
    case 1 => m.(uuid := Some(b))
    case 3 => m.(msgType := Some(b))
    case 4 => m.(logger := Some(b))
    case 6 => m.(payload := Some(b))
    case 7 => m.(envVersion := Some(b))
    case 9 => m.(hostname := Some(b))
    // The error of the nested Unmarshal is dropped; what it filled in is kept.
    case _ => m.(fields := m.fields + [DecodeFieldFrom(b, EmptyField).value])
  }

  function SetMessageWord(m: Message, num: nat, v: nat): Message {
    match num
    case 2 => m.(timestamp := Some(Signed(v % TWO64, TWO63)))
    case 5 => m.(severity := Some(Signed(v % TWO32, TWO31)))
    case _ => m.(pid := Some(Signed(v % TWO32, TWO31)))
  }

  function MessageStep(m: Message, num: nat, wireType: nat, s: seq<byte>): (r: Step<Message>)
    ensures r.Next? ==> r.used <= |s|
  {
    if num in {2, 5, 8} then
      if wireType != 0 then Fail(m) else
      match Decode(s)
      case None => Fail(m)
      case Some(p) => Next(SetMessageWord(m, num, p.0), p.1)
    else if num in {1, 3, 4, 6, 7, 9, 10} then
      if wireType != 2 then Fail(m) else
      match ReadBlob(s)
      case None => Fail(m)
      case Some(p) => Next(SetMessageBlob(m, num, p.0), p.1)
    else Fail(m)
  }

  function DecodeMessageFrom(s: seq<byte>, m: Message): Outcome<Message> {
    if s == [] then Outcome(m, true)
    else
      match Decode(s)
      case None => Outcome(m, false)
      case Some(tag) =>
        match MessageStep(m, NumberOf(tag.0), TypeOf(tag.0), s[tag.1..])
        case Fail(m') => Outcome(m', false)
        case Next(m', used) => DecodeMessageFrom(s[tag.1 + used..], m')
  }

  // ------------------------------------------------- reading back the pieces

  lemma FlattenTail(ps: seq<seq<byte>>, k: nat)
    requires k < |ps|
    ensures Flatten(ps[k..]) == ps[k] + Flatten(ps[k + 1..])
  {
    assert ps[k..][1..] == ps[k + 1..];
  }

  lemma {:induction false} PartLength(ps: seq<seq<byte>>, k: nat)
    requires k < |ps|
    ensures |ps[k]| <= |Flatten(ps)|
  {
    if k > 0 {
      PartLength(ps[1..], k - 1);
    }
  }

  lemma ReadTag(num: FieldNumber, wireType: nat)
    requires wireType < 8
    ensures NumberOf(num * 8 + wireType) == num && TypeOf(num * 8 + wireType) == wireType
  {
    ModSmall(num * 8 + wireType, TWO64);
    ModSmall(num, TWO32);
  }

  lemma ReadBackLength(n: nat, rest: seq<byte>)
    requires n < TWO63 && n <= |rest|
    ensures ReadLength(Encode(n) + rest) == Some((n, |Encode(n)|))
  {
    RoundTrip(n, rest);
    ModSmall(n, TWO64);
  }

  lemma ReadBackBlob(b: Blob, rest: seq<byte>)
    requires |b| < TWO63
    ensures ReadBlob(Encode(|b|) + b + rest) == Some((b, |Encode(|b|)| + |b|))
  {
    assert Encode(|b|) + b + rest == Encode(|b|) + (b + rest);
    ReadBackLength(|b|, b + rest);
  }

  /** A length-delimited record in front of `rest`, seen from after its tag. */
  function BlobBody(b: Blob, rest: seq<byte>): seq<byte> { Encode(|b|) + b + rest }

  lemma BlobSplit(num: FieldNumber, b: Blob, rest: seq<byte>)
    requires |b| < TWO63
    ensures BlobRecord(num, b) + rest == [num * 8 + 2] + BlobBody(b, rest)
    ensures ReadBlob(BlobBody(b, rest)) == Some((b, |Encode(|b|)| + |b|))
    ensures BlobBody(b, rest)[|Encode(|b|)| + |b|..] == rest
  {
    ReadBackBlob(b, rest);
  }

  lemma WordSplit(num: FieldNumber, v: nat, rest: seq<byte>)
    ensures WordRecord(num, v) + rest == [num * 8] + (Encode(v) + rest)
    ensures Decode(Encode(v) + rest) == Some((v, |Encode(v)|))
    ensures (Encode(v) + rest)[|Encode(v)|..] == rest
  {
    RoundTrip(v, rest);
  }

  lemma {:induction false} ReadBackIntegers(xs: seq<int64>, rest: seq<byte>)
    ensures ReadIntegers(Integers(xs) + rest, |Integers(xs)|) == Run(xs, |Integers(xs)|, true)
  {
    if xs != [] {
      var head, tail := Encode(xs[0] % TWO64), Integers(xs[1..]);
      var s := Integers(xs) + rest;
      assert s == head + (tail + rest);
      RoundTrip(xs[0] % TWO64, tail + rest);
      assert s[|head|..] == tail + rest;
      ModSmall(xs[0] % TWO64, TWO64);
      SignedOf(xs[0], TWO63);
      ReadBackIntegers(xs[1..], rest);
    }
  }

  lemma FixedRoundTrip(v: uint64, rest: seq<byte>)
    ensures FromFixed64(Fixed64(v) + rest) == v
  {
    var v1 := v / 0x100;
    var v2 := v1 / 0x100;
    var v3 := v2 / 0x100;
    var v4 := v3 / 0x100;
    var v5 := v4 / 0x100;
    var v6 := v5 / 0x100;
    var v7 := v6 / 0x100;
    assert v2 == v / 0x1_0000 && v3 == v / 0x100_0000 && v4 == v / 0x1_0000_0000;
    assert v5 == v / 0x100_0000_0000 && v6 == v / 0x1_0000_0000_0000;
    assert v7 == v / 0x100_0000_0000_0000 && v7 < 256;
  }

  lemma {:induction false} ReadBackDoubles(xs: seq<uint64>, rest: seq<byte>)
    ensures ReadDoubles(Doubles(xs) + rest, |Doubles(xs)|) == Run(xs, |Doubles(xs)|, true)
  {
    if xs != [] {
      var s := Doubles(xs) + rest;
      assert s == Fixed64(xs[0]) + (Doubles(xs[1..]) + rest);
      FixedRoundTrip(xs[0], Doubles(xs[1..]) + rest);
      assert s[8..] == Doubles(xs[1..]) + rest;
      ReadBackDoubles(xs[1..], rest);
    }
  }

  lemma {:induction false} ReadBackBools(xs: seq<bool>, rest: seq<byte>)
    ensures ReadBools(Bools(xs) + rest, |Bools(xs)|) == Run(xs, |Bools(xs)|, true)
  {
    if xs != [] {
      var s := Bools(xs) + rest;
      assert s[1..] == Bools(xs[1..]) + rest;
      ReadBackBools(xs[1..], rest);
    }
  }

  // ------------------------------------------------------------------ header

  lemma HeaderDone(h: Header)
    ensures DecodeHeaderFrom([], h) == Outcome(h, true)
  {
  }

  /** One turn of the header loop. */
  lemma HeaderTurn(num: FieldNumber, wireType: nat, body: seq<byte>, h: Header, used: nat, h': Header)
    requires wireType < 8 && num * 8 + wireType < 128
    requires HeaderStep(h, num, wireType, body) == Next(h', used)
    ensures DecodeHeaderFrom([num * 8 + wireType] + body, h) == DecodeHeaderFrom(body[used..], h')
  {
    hide HeaderStep;
    hide NumberOf;
    hide TypeOf;
    ReadTag(num, wireType);
    var s := [num * 8 + wireType] + body;
    assert s[1..] == body && s[1 + used..] == body[used..];
  }

  lemma HeaderBlob(num: FieldNumber, o: Option<Blob>, rest: seq<byte>, h: Header)
    requires num in {4, 6} && |OptBlob(num, o)| < TWO63
    ensures DecodeHeaderFrom(OptBlob(num, o) + rest, h)
            == DecodeHeaderFrom(rest, if o.Some? then SetHeaderBlob(h, num, o.value) else h)
  {
    hide DecodeHeaderFrom;
    if o.Some? {
      var b := o.value;
      BlobSplit(num, b, rest);
      HeaderTurn(num, 2, BlobBody(b, rest), h, |Encode(|b|)| + |b|, SetHeaderBlob(h, num, b));
    } else {
      assert OptBlob(num, o) + rest == rest;
    }
  }

  lemma HeaderWord(num: FieldNumber, o: Option<int>, rest: seq<byte>, h: Header)
    requires num in {1, 3, 5}
    ensures DecodeHeaderFrom(OptWord(num, o, TWO64) + rest, h)
            == DecodeHeaderFrom(rest, if o.Some? then SetHeaderWord(h, num, o.value % TWO64) else h)
  {
    hide DecodeHeaderFrom;
    if o.Some? {
      var v := o.value % TWO64;
      WordSplit(num, v, rest);
      HeaderTurn(num, 0, Encode(v) + rest, h, |Encode(v)|, SetHeaderWord(h, num, v));
    } else {
      assert OptWord(num, o, TWO64) + rest == rest;
    }
  }

  /** Sign-extending an int32 to 64 bits and truncating it again loses nothing. */
  lemma Widen32(x: int)
    requires 0 - TWO31 <= x < TWO32
    ensures x % TWO64 % TWO32 == x % TWO32
  {
    if x < 0 {
      ModShift(x, 1, TWO64);
      ModSmall(x + TWO64, TWO64);
      ModShift(x, TWO32, TWO32);
    } else {
      ModSmall(x, TWO64);
    }
  }

  /** Unmarshal undoes Marshal on every Header. */
  lemma HeaderRoundTrip(h: Header)
    requires |EncodeHeader(h)| < TWO63
    ensures DecodeHeaderFrom(EncodeHeader(h), EmptyHeader) == Outcome(h, true)
  {
    hide DecodeHeaderFrom;
    var ps := HeaderParts(h);
    forall k: nat | k < 5 ensures Flatten(ps[k..]) == ps[k] + Flatten(ps[k + 1..]) && |ps[k]| < TWO63 {
      FlattenTail(ps, k);
      PartLength(ps, k);
    }
    assert ps[0..] == ps && ps[5..] == [];
    HeaderDone(h);
    var h1 := EmptyHeader.(messageLength := h.messageLength);
    HeaderWord(1, h.messageLength, Flatten(ps[1..]), EmptyHeader);
    if h.messageLength.Some? { Widen32(h.messageLength.value); ModSmall(h.messageLength.value, TWO32); }
    var h2 := h1.(hashFunction := h.hashFunction);
    HeaderWord(3, h.hashFunction, Flatten(ps[2..]), h1);
    if h.hashFunction.Some? { Widen32(h.hashFunction.value); SignedOf(h.hashFunction.value, TWO31); }
    var h3 := h2.(signer := h.signer);
    HeaderBlob(4, h.signer, Flatten(ps[3..]), h2);
    var h4 := h3.(keyVersion := h.keyVersion);
    HeaderWord(5, h.keyVersion, Flatten(ps[4..]), h3);
    if h.keyVersion.Some? { Widen32(h.keyVersion.value); ModSmall(h.keyVersion.value, TWO32); }
    HeaderBlob(6, h.hmac, Flatten(ps[5..]), h4);
  }

  // ------------------------------------------------------------------- field

  lemma FieldDone(f: Field)
    ensures DecodeFieldFrom([], f) == Outcome(f, true)
  {
  }

  /** One turn of the field loop. */
  lemma FieldTurn(num: FieldNumber, wireType: nat, body: seq<byte>, f: Field, used: nat, f': Field)
    requires wireType < 8 && num * 8 + wireType < 128
    requires FieldStep(f, num, wireType, body) == Next(f', used)
    ensures DecodeFieldFrom([num * 8 + wireType] + body, f) == DecodeFieldFrom(body[used..], f')
  {
    hide FieldStep;
    hide NumberOf;
    hide TypeOf;
    ReadTag(num, wireType);
    var s := [num * 8 + wireType] + body;
    assert s[1..] == body && s[1 + used..] == body[used..];
  }

  lemma FieldBlob(num: FieldNumber, b: Blob, rest: seq<byte>, f: Field)
    requires num in {1, 3, 4, 5} && |b| < TWO63
    ensures DecodeFieldFrom(BlobRecord(num, b) + rest, f)
            == DecodeFieldFrom(rest, SetFieldBlob(f, num, b))
  {
    hide DecodeFieldFrom;
    BlobSplit(num, b, rest);
    FieldTurn(num, 2, BlobBody(b, rest), f, |Encode(|b|)| + |b|, SetFieldBlob(f, num, b));
  }

  lemma FieldOptBlob(num: FieldNumber, o: Option<Blob>, rest: seq<byte>, f: Field)
    requires num in {1, 3} && |OptBlob(num, o)| < TWO63
    ensures DecodeFieldFrom(OptBlob(num, o) + rest, f)
            == DecodeFieldFrom(rest, if o.Some? then SetFieldBlob(f, num, o.value) else f)
  {
    hide DecodeFieldFrom;
    if o.Some? {
      FieldBlob(num, o.value, rest, f);
    } else {
      assert OptBlob(num, o) + rest == rest;
    }
  }

  lemma FieldType(o: Option<int32>, rest: seq<byte>, f: Field)
    requires f.valueType == None
    ensures DecodeFieldFrom(OptWord(2, o, TWO64) + rest, f) == DecodeFieldFrom(rest, f.(valueType := o))
  {
    hide DecodeFieldFrom;
    if o.Some? {
      var v := o.value % TWO64;
      WordSplit(2, v, rest);
      Widen32(o.value);
      SignedOf(o.value, TWO31);
      FieldTurn(2, 0, Encode(v) + rest, f, |Encode(v)|, f.(valueType := o));
    } else {
      assert OptWord(2, o, TWO64) + rest == rest;
    }
  }

  lemma {:induction false} FieldStrings(bs: seq<Blob>, rest: seq<byte>, f: Field)
    requires |BlobRecords(4, bs)| < TWO63
    ensures DecodeFieldFrom(BlobRecords(4, bs) + rest, f)
            == DecodeFieldFrom(rest, f.(strings := f.strings + bs))
  {
    hide DecodeFieldFrom;
    if bs == [] {
      assert BlobRecords(4, bs) + rest == rest && f.strings + bs == f.strings;
    } else {
      var more := BlobRecords(4, bs[1..]);
      assert BlobRecords(4, bs) + rest == BlobRecord(4, bs[0]) + (more + rest);
      FieldBlob(4, bs[0], more + rest, f);
      FieldStrings(bs[1..], rest, SetFieldBlob(f, 4, bs[0]));
      assert f.strings + [bs[0]] + bs[1..] == f.strings + bs;
    }
  }

  lemma {:induction false} FieldBlobs(bs: seq<Blob>, rest: seq<byte>, f: Field)
    requires |BlobRecords(5, bs)| < TWO63
    ensures DecodeFieldFrom(BlobRecords(5, bs) + rest, f)
            == DecodeFieldFrom(rest, f.(blobs := f.blobs + bs))
  {
    hide DecodeFieldFrom;
    if bs == [] {
      assert BlobRecords(5, bs) + rest == rest && f.blobs + bs == f.blobs;
    } else {
      var more := BlobRecords(5, bs[1..]);
      assert BlobRecords(5, bs) + rest == BlobRecord(5, bs[0]) + (more + rest);
      FieldBlob(5, bs[0], more + rest, f);
      FieldBlobs(bs[1..], rest, SetFieldBlob(f, 5, bs[0]));
      assert f.blobs + [bs[0]] + bs[1..] == f.blobs + bs;
    }
  }

  /** A packed record in front of `rest`, seen from after its tag. */
  function PackedBody(payload: seq<byte>, rest: seq<byte>): seq<byte> {
    Encode(|payload|) + (payload + rest)
  }

  lemma PackedPrefix(num: FieldNumber, payload: seq<byte>, rest: seq<byte>)
    requires |payload| < TWO63
    ensures var body := PackedBody(payload, rest); var n := |Encode(|payload|)|;
            && BlobRecord(num, payload) + rest == [num * 8 + 2] + body
            && ReadLength(body) == Some((|payload|, n))
            && |body| >= n + |payload|
            && body[n..] == payload + rest
            && body[n + |payload|..] == rest
  {
    ReadBackLength(|payload|, payload + rest);
  }

  lemma IntegerRun(xs: seq<int64>, rest: seq<byte>, f: Field)
    requires |Integers(xs)| < TWO63
    ensures IntegerStep(f, 2, PackedBody(Integers(xs), rest))
            == Next(f.(integers := f.integers + xs), |Encode(|Integers(xs)|)| + |Integers(xs)|)
  {
    hide ReadIntegers;
    hide Integers;
    PackedPrefix(6, Integers(xs), rest);
    ReadBackIntegers(xs, rest);
  }

  lemma FieldIntegers(xs: seq<int64>, rest: seq<byte>, f: Field)
    requires |Integers(xs)| < TWO63
    ensures DecodeFieldFrom(Packed(6, |xs|, Integers(xs)) + rest, f)
            == DecodeFieldFrom(rest, f.(integers := f.integers + xs))
  {
    hide DecodeFieldFrom;
    hide IntegerStep;
    hide PackedBody;
    if xs == [] {
      assert Packed(6, |xs|, Integers(xs)) + rest == rest && f.integers + xs == f.integers;
    } else {
      PackedPrefix(6, Integers(xs), rest);
      IntegerRun(xs, rest, f);
      FieldTurn(6, 2, PackedBody(Integers(xs), rest), f, |Encode(|Integers(xs)|)| + |Integers(xs)|,
                f.(integers := f.integers + xs));
    }
  }

  lemma DoubleRun(xs: seq<uint64>, rest: seq<byte>, f: Field)
    requires |Doubles(xs)| < TWO63
    ensures DoubleStep(f, 2, PackedBody(Doubles(xs), rest))
            == Next(f.(doubles := f.doubles + xs), |Encode(|Doubles(xs)|)| + |Doubles(xs)|)
  {
    hide ReadDoubles;
    hide Doubles;
    PackedPrefix(7, Doubles(xs), rest);
    ReadBackDoubles(xs, rest);
  }

  lemma FieldDoubles(xs: seq<uint64>, rest: seq<byte>, f: Field)
    requires |Doubles(xs)| < TWO63
    ensures DecodeFieldFrom(Packed(7, |xs|, Doubles(xs)) + rest, f)
            == DecodeFieldFrom(rest, f.(doubles := f.doubles + xs))
  {
    hide DecodeFieldFrom;
    hide DoubleStep;
    hide PackedBody;
    if xs == [] {
      assert Packed(7, |xs|, Doubles(xs)) + rest == rest && f.doubles + xs == f.doubles;
    } else {
      PackedPrefix(7, Doubles(xs), rest);
      DoubleRun(xs, rest, f);
      FieldTurn(7, 2, PackedBody(Doubles(xs), rest), f, |Encode(|Doubles(xs)|)| + |Doubles(xs)|,
                f.(doubles := f.doubles + xs));
    }
  }

  lemma BoolRun(xs: seq<bool>, rest: seq<byte>, f: Field)
    requires |Bools(xs)| < TWO63
    ensures BoolStep(f, 2, PackedBody(Bools(xs), rest))
            == Next(f.(bools := f.bools + xs), |Encode(|Bools(xs)|)| + |Bools(xs)|)
  {
    hide ReadBools;
    hide Bools;
    PackedPrefix(8, Bools(xs), rest);
    ReadBackBools(xs, rest);
  }

  lemma FieldBools(xs: seq<bool>, rest: seq<byte>, f: Field)
    requires |Bools(xs)| < TWO63
    ensures DecodeFieldFrom(Packed(8, |xs|, Bools(xs)) + rest, f)
            == DecodeFieldFrom(rest, f.(bools := f.bools + xs))
  {
    hide DecodeFieldFrom;
    hide BoolStep;
    hide PackedBody;
    if xs == [] {
      assert Packed(8, |xs|, Bools(xs)) + rest == rest && f.bools + xs == f.bools;
    } else {
      PackedPrefix(8, Bools(xs), rest);
      BoolRun(xs, rest, f);
      FieldTurn(8, 2, PackedBody(Bools(xs), rest), f, |Encode(|Bools(xs)|)| + |Bools(xs)|,
                f.(bools := f.bools + xs));
    }
  }

  /** Unmarshal undoes Marshal on every Field: repeated strings and bytes, packed
    * lists, negative integers and all. */
  lemma FieldRoundTrip(f: Field)
    requires |EncodeField(f)| < TWO63
    ensures DecodeFieldFrom(EncodeField(f), EmptyField) == Outcome(f, true)
  {
    hide DecodeFieldFrom;
    var ps := FieldParts(f);
    forall k: nat | k < 8 ensures Flatten(ps[k..]) == ps[k] + Flatten(ps[k + 1..]) && |ps[k]| < TWO63 {
      FlattenTail(ps, k);
      PartLength(ps, k);
    }
    assert ps[0..] == ps && ps[8..] == [];
    var f1 := EmptyField.(name := f.name);
    FieldOptBlob(1, f.name, Flatten(ps[1..]), EmptyField);
    var f2 := f1.(valueType := f.valueType);
    FieldType(f.valueType, Flatten(ps[2..]), f1);
    var f3 := f2.(representation := f.representation);
    FieldOptBlob(3, f.representation, Flatten(ps[3..]), f2);
    FieldLists(f, f3);
  }

  lemma FieldLists(f: Field, f3: Field)
    requires |EncodeField(f)| < TWO63
    requires f3 == EmptyField.(name := f.name, valueType := f.valueType, representation := f.representation)
    ensures DecodeFieldFrom(Flatten(FieldParts(f)[3..]), f3) == Outcome(f, true)
  {
    hide DecodeFieldFrom, Packed, BlobRecords;
    var ps := FieldParts(f);
    forall k: nat | 3 <= k < 5 ensures Flatten(ps[k..]) == ps[k] + Flatten(ps[k + 1..]) && |ps[k]| < TWO63 {
      FlattenTail(ps, k);
      PartLength(ps, k);
    }
    assert |ps[3]| < TWO63 && |ps[4]| < TWO63;
    assert [] + f.strings == f.strings && [] + f.blobs == f.blobs;
    var f4 := f3.(strings := f.strings);
    FieldStrings(f.strings, Flatten(ps[4..]), f3);
    var f5 := f4.(blobs := f.blobs);
    FieldBlobs(f.blobs, Flatten(ps[5..]), f4);
    FieldNumbers(f, f5);
  }

  lemma FieldNumbers(f: Field, f5: Field)
    requires |EncodeField(f)| < TWO63
    requires f5 == f.(integers := [], doubles := [], bools := [])
    ensures DecodeFieldFrom(Flatten(FieldParts(f)[5..]), f5) == Outcome(f, true)
  {
    hide DecodeFieldFrom, BlobRecord;
    var ps := FieldParts(f);
    forall k: nat | 5 <= k < 8 ensures Flatten(ps[k..]) == ps[k] + Flatten(ps[k + 1..]) && |ps[k]| < TWO63 {
      FlattenTail(ps, k);
      PartLength(ps, k);
    }
    assert ps[8..] == [];
    FieldDone(f);
    PackedShorter(f);
    var f6 := f5.(integers := f.integers);
    FieldIntegers(f.integers, Flatten(ps[6..]), f5);
    var f7 := f6.(doubles := f.doubles);
    FieldDoubles(f.doubles, Flatten(ps[7..]), f6);
    FieldBools(f.bools, Flatten(ps[8..]), f7);
    assert [] + f.integers == f.integers && [] + f.doubles == f.doubles && [] + f.bools == f.bools;
  }

  lemma PackedShorter(f: Field)
    ensures |Integers(f.integers)| <= |FieldParts(f)[5]|
    ensures |Doubles(f.doubles)| <= |FieldParts(f)[6]|
    ensures |Bools(f.bools)| <= |FieldParts(f)[7]|
  {
  }

  // ----------------------------------------------------------------- message

  lemma MessageDone(m: Message)
    ensures DecodeMessageFrom([], m) == Outcome(m, true)
  {
  }

  /** One turn of the message loop. */
  lemma MessageTurn(num: FieldNumber, wireType: nat, body: seq<byte>, m: Message, used: nat, m': Message)
    requires wireType < 8 && num * 8 + wireType < 128
    requires MessageStep(m, num, wireType, body) == Next(m', used)
    ensures DecodeMessageFrom([num * 8 + wireType] + body, m) == DecodeMessageFrom(body[used..], m')
  {
    hide MessageStep;
    hide NumberOf;
    hide TypeOf;
    ReadTag(num, wireType);
    var s := [num * 8 + wireType] + body;
    assert s[1..] == body && s[1 + used..] == body[used..];
  }

  lemma MessageBlob(num: FieldNumber, b: Blob, rest: seq<byte>, m: Message)
    requires num in {1, 3, 4, 6, 7, 9, 10} && |b| < TWO63
    ensures DecodeMessageFrom(BlobRecord(num, b) + rest, m)
            == DecodeMessageFrom(rest, SetMessageBlob(m, num, b))
  {
    hide DecodeMessageFrom;
    BlobSplit(num, b, rest);
    MessageTurn(num, 2, BlobBody(b, rest), m, |Encode(|b|)| + |b|, SetMessageBlob(m, num, b));
  }

  lemma MessageOptBlob(num: FieldNumber, o: Option<Blob>, rest: seq<byte>, m: Message)
    requires num in {1, 3, 4, 6, 7, 9} && |OptBlob(num, o)| < TWO63
    ensures DecodeMessageFrom(OptBlob(num, o) + rest, m)
            == DecodeMessageFrom(rest, if o.Some? then SetMessageBlob(m, num, o.value) else m)
  {
    hide DecodeMessageFrom;
    if o.Some? {
      MessageBlob(num, o.value, rest, m);
    } else {
      assert OptBlob(num, o) + rest == rest;
    }
  }

  lemma MessageWord(num: FieldNumber, o: Option<int>, width: int, rest: seq<byte>, m: Message)
    requires num in {2, 5, 8} && width > 0
    ensures DecodeMessageFrom(OptWord(num, o, width) + rest, m)
            == DecodeMessageFrom(rest, if o.Some? then SetMessageWord(m, num, o.value % width) else m)
  {
    hide DecodeMessageFrom;
    if o.Some? {
      var v := o.value % width;
      WordSplit(num, v, rest);
      MessageTurn(num, 0, Encode(v) + rest, m, |Encode(v)|, SetMessageWord(m, num, v));
    } else {
      assert OptWord(num, o, width) + rest == rest;
    }
  }

  lemma {:induction false} MessageFields(fs: seq<Field>, rest: seq<byte>, m: Message)
    requires |FieldRecords(fs)| < TWO63
    ensures DecodeMessageFrom(FieldRecords(fs) + rest, m)
            == DecodeMessageFrom(rest, m.(fields := m.fields + fs))
  {
    hide DecodeFieldFrom;
    hide EncodeField;
    hide DecodeMessageFrom;
    if fs == [] {
      assert FieldRecords(fs) + rest == rest && m.fields + fs == m.fields;
    } else {
      var more := FieldRecords(fs[1..]);
      assert FieldRecords(fs) + rest == BlobRecord(10, EncodeField(fs[0])) + (more + rest);
      MessageBlob(10, EncodeField(fs[0]), more + rest, m);
      FieldRoundTrip(fs[0]);
      MessageFields(fs[1..], rest, m.(fields := m.fields + [fs[0]]));
      assert m.fields + [fs[0]] + fs[1..] == m.fields + fs;
    }
  }

  lemma SignedWord(o: Option<int>, half: int)
    requires half > 0 && (o.Some? ==> 0 - half <= o.value < half)
    ensures o.Some? ==> o.value % (2 * half) % (2 * half) == o.value % (2 * half)
    ensures o.Some? ==> Signed(o.value % (2 * half), half) == o.value
  {
    if o.Some? {
      SignedOf(o.value, half);
      ModSmall(o.value % (2 * half), 2 * half);
    }
  }

  /** Unmarshal undoes Marshal on every Message, whatever Fields it nests.  A Go
    * byte slice is shorter than 2^63, which is all the precondition says. */
  lemma MessageRoundTrip(m: Message)
    requires |EncodeMessage(m)| < TWO63
    ensures DecodeMessageFrom(EncodeMessage(m), EmptyMessage) == Outcome(m, true)
  {
    hide DecodeMessageFrom;
    var ps := MessageParts(m);
    forall k: nat | k < 10 ensures Flatten(ps[k..]) == ps[k] + Flatten(ps[k + 1..]) && |ps[k]| < TWO63 {
      FlattenTail(ps, k);
      PartLength(ps, k);
    }
    assert ps[0..] == ps;
    var m1 := EmptyMessage.(uuid := m.uuid);
    MessageOptBlob(1, m.uuid, Flatten(ps[1..]), EmptyMessage);
    var m2 := m1.(timestamp := m.timestamp);
    MessageWord(2, m.timestamp, TWO64, Flatten(ps[2..]), m1);
    SignedWord(m.timestamp, TWO63);
    var m3 := m2.(msgType := m.msgType);
    MessageOptBlob(3, m.msgType, Flatten(ps[3..]), m2);
    var m4 := m3.(logger := m.logger);
    MessageOptBlob(4, m.logger, Flatten(ps[4..]), m3);
    MessageLastParts(m, m4);
  }

  lemma MessageLastParts(m: Message, m4: Message)
    requires |EncodeMessage(m)| < TWO63
    requires m4 == EmptyMessage.(uuid := m.uuid, timestamp := m.timestamp, msgType := m.msgType, logger := m.logger)
    ensures DecodeMessageFrom(Flatten(MessageParts(m)[4..]), m4) == Outcome(m, true)
  {
    hide DecodeMessageFrom;
    var ps := MessageParts(m);
    forall k: nat | k < 10 ensures Flatten(ps[k..]) == ps[k] + Flatten(ps[k + 1..]) && |ps[k]| < TWO63 {
      FlattenTail(ps, k);
      PartLength(ps, k);
    }
    var m5 := m4.(severity := m.severity);
    MessageWord(5, m.severity, TWO32, Flatten(ps[5..]), m4);
    SignedWord(m.severity, TWO31);
    var m6 := m5.(payload := m.payload);
    MessageOptBlob(6, m.payload, Flatten(ps[6..]), m5);
    var m7 := m6.(envVersion := m.envVersion);
    MessageOptBlob(7, m.envVersion, Flatten(ps[7..]), m6);
    MessageFinalParts(m, m7);
  }

  lemma MessageFinalParts(m: Message, m7: Message)
    requires |EncodeMessage(m)| < TWO63
    requires m7 == m.(pid := None, hostname := None, fields := [])
    ensures DecodeMessageFrom(Flatten(MessageParts(m)[7..]), m7) == Outcome(m, true)
  {
    hide DecodeMessageFrom;
    var ps := MessageParts(m);
    forall k: nat | k < 10 ensures Flatten(ps[k..]) == ps[k] + Flatten(ps[k + 1..]) && |ps[k]| < TWO63 {
      FlattenTail(ps, k);
      PartLength(ps, k);
    }
    assert ps[10..] == [];
    MessageDone(m);
    var m8 := m7.(pid := m.pid);
    MessageWord(8, m.pid, TWO32, Flatten(ps[8..]), m7);
    SignedWord(m.pid, TWO31);
    var m9 := m8.(hostname := m.hostname);
    MessageOptBlob(9, m.hostname, Flatten(ps[9..]), m8);
    MessageFields(m.fields, Flatten(ps[10..]), m9);
    assert [] + m.fields == m.fields;
  }
}
