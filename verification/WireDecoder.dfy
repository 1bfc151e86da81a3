/** Unmarshal as the generated code runs it: a loop over tags, inner loops over
  * varint bytes and packed lists, the object filled in as records arrive. */
module WireDecoder {
  import opened Bytes
  import opened Varint
  import opened Wire

  method GetLength(data: seq<byte>, index: nat) returns (r: Option<(nat, nat)>)
    requires index <= |data|
    ensures r == ReadLength(data[index..])
  {
    var v := GetVarint(data, index, TWO64);
    if v.None? || v.value.0 >= TWO63 || v.value.1 + v.value.0 > |data| {
      return None;
    }
    return Some((v.value.0, v.value.1 - index));
  }

  method GetBlob(data: seq<byte>, index: nat) returns (r: Option<(Blob, nat)>)
    requires index <= |data|
    ensures r == ReadBlob(data[index..])
  {
    hide ReadLength;
    var p := GetLength(data, index);
    if p.None? {
      return None;
    }
    var start := index + p.value.1;
    var postIndex := start + p.value.0;
    assert data[index..][p.value.1..p.value.1 + p.value.0] == data[start..postIndex];
    return Some((data[start..postIndex], postIndex - index));
  }

  /** A run that goes on from what has been read so far. */
  function After<T>(items: seq<T>, used: nat, rest: Run<T>): Run<T> {
    Run(items + rest.items, used + rest.used, rest.ok)
  }

  lemma OneMore<T>(items: seq<T>, used: nat, x: T, n: nat, rest: Run<T>)
    ensures After(items, used, Run([x] + rest.items, n + rest.used, rest.ok)) == After(items + [x], used + n, rest)
  {
    assert items + ([x] + rest.items) == items + [x] + rest.items;
  }

  lemma Finished<T>(items: seq<T>, used: nat, ok: bool)
    ensures After(items, used, Run([], 0, ok)) == Run(items, used, ok)
  {
    assert items + [] == items;
  }

  lemma Begun<T>(rest: Run<T>)
    ensures After([], 0, rest) == rest
  {
    assert [] + rest.items == rest.items;
  }

  /** One turn of the loop, on the data from its index on. */
  lemma IntegersLoop(data: seq<byte>, index: nat, budget: int)
    requires index <= |data|
    ensures var p := Decode(data[index..]); var r := ReadIntegers(data[index..], budget);
            if budget <= 0 then r == Run([], 0, true)
            else if p.None? then r == Run([], 0, false)
            else && index + p.value.1 <= |data|
                 && var rest := ReadIntegers(data[index + p.value.1..], budget - p.value.1);
                    r == Run([Signed(p.value.0 % TWO64, TWO63)] + rest.items, p.value.1 + rest.used, rest.ok)
  {
    hide Decode;
    var p := Decode(data[index..]);
    if p.Some? {
      assert data[index..][p.value.1..] == data[index + p.value.1..];
    }
  }

  method UnpackIntegers(data: seq<byte>, start: nat, postIndex: nat) returns (r: Run<int64>)
    requires start <= |data|
    ensures r == ReadIntegers(data[start..], postIndex - start)
  {
    hide Signed, Decode, ReadIntegers, After;
    var index := start;
    var items: seq<int64> := [];
    ghost var whole := ReadIntegers(data[start..], postIndex - start);
    Begun(whole);
    while index < postIndex
      invariant start <= index <= |data|
      invariant whole == After(items, index - start, ReadIntegers(data[index..], postIndex - index))
      decreases postIndex - index
    {
      IntegersLoop(data, index, postIndex - index);
      var v := GetVarint(data, index, TWO64);
      if v.None? {
        Finished(items, index - start, false);
        return Run(items, index - start, false);
      }
      var x: int64 := Signed(v.value.0, TWO63);
      OneMore(items, index - start, x, v.value.1 - index, ReadIntegers(data[v.value.1..], postIndex - v.value.1));
      items := items + [x];
      index := v.value.1;
    }
    IntegersLoop(data, index, postIndex - index);
    Finished(items, index - start, true);
    return Run(items, index - start, true);
  }

  lemma DoublesLoop(data: seq<byte>, index: nat, budget: int)
    requires index <= |data|
    ensures var r := ReadDoubles(data[index..], budget);
            if budget <= 0 then r == Run([], 0, true)
            else if index + 8 > |data| then r == Run([], 0, false)
            else var rest := ReadDoubles(data[index + 8..], budget - 8);
                 r == Run([FromFixed64(data[index..])] + rest.items, 8 + rest.used, rest.ok)
  {
    hide FromFixed64;
    if index + 8 <= |data| {
      assert data[index..][8..] == data[index + 8..];
    }
  }

  method UnpackDoubles(data: seq<byte>, start: nat, postIndex: nat) returns (r: Run<uint64>)
    requires start <= |data|
    ensures r == ReadDoubles(data[start..], postIndex - start)
  {
    hide FromFixed64, ReadDoubles, After;
    var index := start;
    var items: seq<uint64> := [];
    ghost var whole := ReadDoubles(data[start..], postIndex - start);
    Begun(whole);
    while index < postIndex
      invariant start <= index <= |data|
      invariant whole == After(items, index - start, ReadDoubles(data[index..], postIndex - index))
      decreases postIndex - index
    {
      DoublesLoop(data, index, postIndex - index);
      if index + 8 > |data| {
        Finished(items, index - start, false);
        return Run(items, index - start, false);
      }
      var x := FromFixed64(data[index..]);
      OneMore(items, index - start, x, 8, ReadDoubles(data[index + 8..], postIndex - (index + 8)));
      items := items + [x];
      index := index + 8;
    }
    DoublesLoop(data, index, postIndex - index);
    Finished(items, index - start, true);
    return Run(items, index - start, true);
  }

  /** One turn of the loop, on the data from its index on. */
  lemma BoolsLoop(data: seq<byte>, index: nat, budget: int)
    requires index <= |data|
    ensures var p := Decode(data[index..]); var r := ReadBools(data[index..], budget);
            if budget <= 0 then r == Run([], 0, true)
            else if p.None? then r == Run([], 0, false)
            else && index + p.value.1 <= |data|
                 && var rest := ReadBools(data[index + p.value.1..], budget - p.value.1);
                    r == Run([p.value.0 % TWO64 != 0] + rest.items, p.value.1 + rest.used, rest.ok)
  {
    hide Decode;
    var p := Decode(data[index..]);
    if p.Some? {
      assert data[index..][p.value.1..] == data[index + p.value.1..];
    }
  }

  method UnpackBools(data: seq<byte>, start: nat, postIndex: nat) returns (r: Run<bool>)
    requires start <= |data|
    ensures r == ReadBools(data[start..], postIndex - start)
  {
    hide Decode, ReadBools, After;
    var index := start;
    var items: seq<bool> := [];
    ghost var whole := ReadBools(data[start..], postIndex - start);
    Begun(whole);
    while index < postIndex
      invariant start <= index <= |data|
      invariant whole == After(items, index - start, ReadBools(data[index..], postIndex - index))
      decreases postIndex - index
    {
      BoolsLoop(data, index, postIndex - index);
      var v := GetVarint(data, index, TWO64);
      if v.None? {
        Finished(items, index - start, false);
        return Run(items, index - start, false);
      }
      var x := v.value.0 != 0;
      OneMore(items, index - start, x, v.value.1 - index, ReadBools(data[v.value.1..], postIndex - v.value.1));
      items := items + [x];
      index := v.value.1;
    }
    BoolsLoop(data, index, postIndex - index);
    Finished(items, index - start, true);
    return Run(items, index - start, true);
  }

  method HeaderCase(data: seq<byte>, index: nat, h: Header, num: nat, wireType: nat) returns (r: Step<Header>)
    requires index <= |data|
    ensures r == HeaderStep(h, num, wireType, data[index..])
  {
    hide ReadBlob;
    if num in {1, 3, 5} {
      if wireType != 0 { return Fail(h); }
      var v := GetVarint(data, index, TWO32);
      if v.None? { return Fail(h); }
      ghost var raw := Decode(data[index..]).value.0;
      ModSmall(raw % TWO32, TWO32);
      return Next(SetHeaderWord(h, num, v.value.0), v.value.1 - index);
    } else if num in {4, 6} {
      if wireType != 2 { return Fail(h); }
      var b := GetBlob(data, index);
      if b.None? { return Fail(h); }
      return Next(SetHeaderBlob(h, num, b.value.0), b.value.1);
    }
    return Fail(h);
  }

  /** One turn of the loop, on the data from its index on. */
  lemma HeaderLoop(data: seq<byte>, index: nat, h: Header)
    requires index < |data|
    ensures var tag := Decode(data[index..]);
            if tag.None? then DecodeHeaderFrom(data[index..], h) == Outcome(h, false)
            else
              var at := index + tag.value.1;
              && index <= at <= |data|
              && var step := HeaderStep(h, tag.value.0 % TWO64 / 8 % TWO32, tag.value.0 % TWO64 % 8, data[at..]);
                 if step.Fail? then DecodeHeaderFrom(data[index..], h) == Outcome(step.value, false)
                 else at + step.used <= |data|
                      && DecodeHeaderFrom(data[index..], h) == DecodeHeaderFrom(data[at + step.used..], step.value)
  {
    hide HeaderStep, Decode;
    var s, tag := data[index..], Decode(data[index..]);
    if tag.Some? {
      var at := index + tag.value.1;
      assert s[tag.value.1..] == data[at..];
      var step := HeaderStep(h, NumberOf(tag.value.0), TypeOf(tag.value.0), data[at..]);
      if step.Next? {
        assert s[tag.value.1 + step.used..] == data[at + step.used..];
      }
    }
  }

  /** Header.Unmarshal. */
  method UnmarshalHeader(data: seq<byte>) returns (r: Outcome<Header>)
    ensures r == DecodeHeaderFrom(data, EmptyHeader)
  {
    hide HeaderStep, DecodeHeaderFrom, Decode, NumberOf, TypeOf;
    var index, h := 0, EmptyHeader;
    assert data[0..] == data;
    while index < |data|
      invariant index <= |data|
      invariant DecodeHeaderFrom(data[index..], h) == DecodeHeaderFrom(data, EmptyHeader)
    {
      HeaderLoop(data, index, h);
      var wire := GetVarint(data, index, TWO64);
      if wire.None? {
        return Outcome(h, false);
      }
      var at := wire.value.1;
      var step := HeaderCase(data, at, h, wire.value.0 / 8 % TWO32, wire.value.0 % 8);
      if step.Fail? {
        return Outcome(step.value, false);
      }
      h := step.value;
      index := at + step.used;
    }
    HeaderDone(h);
    assert data[index..] == [];
    return Outcome(h, true);
  }

  method IntegerCase(data: seq<byte>, index: nat, f: Field, wireType: nat) returns (r: Step<Field>)
    requires index <= |data|
    ensures r == IntegerStep(f, wireType, data[index..])
  {
    hide ReadLength;
    hide ReadIntegers;
    if wireType == 2 {
      var p := GetLength(data, index);
      if p.None? { return Fail(f); }
      var start := index + p.value.1;
      assert data[index..][p.value.1..] == data[start..];
      var run := UnpackIntegers(data, start, start + p.value.0);
      var f' := f.(integers := f.integers + run.items);
      return if run.ok then Next(f', p.value.1 + run.used) else Fail(f');
    } else if wireType == 0 {
      var v := GetVarint(data, index, TWO64);
      if v.None? { return Fail(f); }
      return Next(f.(integers := f.integers + [Signed(v.value.0, TWO63)]), v.value.1 - index);
    }
    return Fail(f);
  }

  method DoubleCase(data: seq<byte>, index: nat, f: Field, wireType: nat) returns (r: Step<Field>)
    requires index <= |data|
    ensures r == DoubleStep(f, wireType, data[index..])
  {
    hide ReadLength;
    hide ReadDoubles;
    hide FromFixed64;
    if wireType == 2 {
      var p := GetLength(data, index);
      if p.None? { return Fail(f); }
      var start := index + p.value.1;
      assert data[index..][p.value.1..] == data[start..];
      var run := UnpackDoubles(data, start, start + p.value.0);
      var f' := f.(doubles := f.doubles + run.items);
      return if run.ok then Next(f', p.value.1 + run.used) else Fail(f');
    } else if wireType == 1 {
      if index + 8 > |data| { return Fail(f); }
      return Next(f.(doubles := f.doubles + [FromFixed64(data[index..])]), 8);
    }
    return Fail(f);
  }

  method BoolCase(data: seq<byte>, index: nat, f: Field, wireType: nat) returns (r: Step<Field>)
    requires index <= |data|
    ensures r == BoolStep(f, wireType, data[index..])
  {
    hide ReadLength;
    hide ReadBools;
    if wireType == 2 {
      var p := GetLength(data, index);
      if p.None? { return Fail(f); }
      var start := index + p.value.1;
      assert data[index..][p.value.1..] == data[start..];
      var run := UnpackBools(data, start, start + p.value.0);
      var f' := f.(bools := f.bools + run.items);
      return if run.ok then Next(f', p.value.1 + run.used) else Fail(f');
    } else if wireType == 0 {
      var v := GetVarint(data, index, TWO64);
      if v.None? { return Fail(f); }
      return Next(f.(bools := f.bools + [v.value.0 != 0]), v.value.1 - index);
    }
    return Fail(f);
  }

  method FieldCase(data: seq<byte>, index: nat, f: Field, num: nat, wireType: nat) returns (r: Step<Field>)
    requires index <= |data|
    ensures r == FieldStep(f, num, wireType, data[index..])
  {
    hide ReadBlob;
    hide IntegerStep;
    hide DoubleStep;
    hide BoolStep;
    if num in {1, 3, 4, 5} {
      if wireType != 2 { return Fail(f); }
      var b := GetBlob(data, index);
      if b.None? { return Fail(f); }
      return Next(SetFieldBlob(f, num, b.value.0), b.value.1);
    } else if num == 2 {
      if wireType != 0 { return Fail(f); }
      var v := GetVarint(data, index, TWO32);
      if v.None? { return Fail(f); }
      return Next(f.(valueType := Some(Signed(v.value.0, TWO31))), v.value.1 - index);
    } else if num == 6 {
      r := IntegerCase(data, index, f, wireType);
    } else if num == 7 {
      r := DoubleCase(data, index, f, wireType);
    } else if num == 8 {
      r := BoolCase(data, index, f, wireType);
    } else {
      return Fail(f);
    }
  }

  /** One turn of the loop, on the data from its index on. */
  lemma FieldLoop(data: seq<byte>, index: nat, f: Field)
    requires index < |data|
    ensures var tag := Decode(data[index..]);
            if tag.None? then DecodeFieldFrom(data[index..], f) == Outcome(f, false)
            else
              var at := index + tag.value.1;
              && index <= at <= |data|
              && var step := FieldStep(f, tag.value.0 % TWO64 / 8 % TWO32, tag.value.0 % TWO64 % 8, data[at..]);
                 if step.Fail? then DecodeFieldFrom(data[index..], f) == Outcome(step.value, false)
                 else at + step.used <= |data|
                      && DecodeFieldFrom(data[index..], f) == DecodeFieldFrom(data[at + step.used..], step.value)
  {
    hide FieldStep, Decode;
    var s, tag := data[index..], Decode(data[index..]);
    if tag.Some? {
      var at := index + tag.value.1;
      assert s[tag.value.1..] == data[at..];
      var step := FieldStep(f, NumberOf(tag.value.0), TypeOf(tag.value.0), data[at..]);
      if step.Next? {
        assert s[tag.value.1 + step.used..] == data[at + step.used..];
      }
    }
  }

  /** Field.Unmarshal. */
  method UnmarshalField(data: seq<byte>) returns (r: Outcome<Field>)
    ensures r == DecodeFieldFrom(data, EmptyField)
  {
    hide FieldStep, DecodeFieldFrom, Decode, NumberOf, TypeOf;
    var index, f := 0, EmptyField;
    assert data[0..] == data;
    while index < |data|
      invariant index <= |data|
      invariant DecodeFieldFrom(data[index..], f) == DecodeFieldFrom(data, EmptyField)
    {
      FieldLoop(data, index, f);
      var wire := GetVarint(data, index, TWO64);
      if wire.None? {
        return Outcome(f, false);
      }
      var at := wire.value.1;
      var step := FieldCase(data, at, f, wire.value.0 / 8 % TWO32, wire.value.0 % 8);
      if step.Fail? {
        return Outcome(step.value, false);
      }
      f := step.value;
      index := at + step.used;
    }
    FieldDone(f);
    assert data[index..] == [];
    return Outcome(f, true);
  }

  method MessageCase(data: seq<byte>, index: nat, m: Message, num: nat, wireType: nat) returns (r: Step<Message>)
    requires index <= |data|
    ensures r == MessageStep(m, num, wireType, data[index..])
  {
    hide ReadBlob;
    hide DecodeFieldFrom;
    if num in {2, 5, 8} {
      if wireType != 0 { return Fail(m); }
      var width := if num == 2 then TWO64 else TWO32;
      var v := GetVarint(data, index, width);
      if v.None? { return Fail(m); }
      ghost var raw := Decode(data[index..]).value.0;
      ModSmall(raw % width, width);
      return Next(SetMessageWord(m, num, v.value.0), v.value.1 - index);
    } else if num in {1, 3, 4, 6, 7, 9} {
      if wireType != 2 { return Fail(m); }
      var b := GetBlob(data, index);
      if b.None? { return Fail(m); }
      return Next(SetMessageBlob(m, num, b.value.0), b.value.1);
    } else if num == 10 {
      if wireType != 2 { return Fail(m); }
      var b := GetBlob(data, index);
      if b.None? { return Fail(m); }
      var nested := UnmarshalField(b.value.0);
      return Next(m.(fields := m.fields + [nested.value]), b.value.1);
    }
    return Fail(m);
  }

  /** One turn of the loop, on the data from its index on. */
  lemma MessageLoop(data: seq<byte>, index: nat, m: Message)
    requires index < |data|
    ensures var tag := Decode(data[index..]);
            if tag.None? then DecodeMessageFrom(data[index..], m) == Outcome(m, false)
            else
              var at := index + tag.value.1;
              && index <= at <= |data|
              && var step := MessageStep(m, tag.value.0 % TWO64 / 8 % TWO32, tag.value.0 % TWO64 % 8, data[at..]);
                 if step.Fail? then DecodeMessageFrom(data[index..], m) == Outcome(step.value, false)
                 else at + step.used <= |data|
                      && DecodeMessageFrom(data[index..], m) == DecodeMessageFrom(data[at + step.used..], step.value)
  {
    hide MessageStep, Decode;
    var s, tag := data[index..], Decode(data[index..]);
    if tag.Some? {
      var at := index + tag.value.1;
      assert s[tag.value.1..] == data[at..];
      var step := MessageStep(m, NumberOf(tag.value.0), TypeOf(tag.value.0), data[at..]);
      if step.Next? {
        assert s[tag.value.1 + step.used..] == data[at + step.used..];
      }
    }
  }

  /** Message.Unmarshal. */
  method UnmarshalMessage(data: seq<byte>) returns (r: Outcome<Message>)
    ensures r == DecodeMessageFrom(data, EmptyMessage)
  {
    hide MessageStep, DecodeMessageFrom, Decode, NumberOf, TypeOf;
    var index, m := 0, EmptyMessage;
    assert data[0..] == data;
    while index < |data|
      invariant index <= |data|
      invariant DecodeMessageFrom(data[index..], m) == DecodeMessageFrom(data, EmptyMessage)
    {
      MessageLoop(data, index, m);
      var wire := GetVarint(data, index, TWO64);
      if wire.None? {
        return Outcome(m, false);
      }
      var at := wire.value.1;
      var step := MessageCase(data, at, m, wire.value.0 / 8 % TWO32, wire.value.0 % 8);
      if step.Fail? {
        return Outcome(step.value, false);
      }
      m := step.value;
      index := at + step.used;
    }
    MessageDone(m);
    assert data[index..] == [];
    return Outcome(m, true);
  }
}
