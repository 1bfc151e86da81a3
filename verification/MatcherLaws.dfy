/** What a leaf of a matcher specification means: which value of the message it is
  * about, and what each operator says of that value and the literal. */
module MatcherLaws {
  import opened Bytes
  import opened Varint
  import opened Wire
  import opened Matcher

  // ------------------------------------------------------------------ the order

  /** At the first place where they differ, the one has the smaller byte, or ends. */
  ghost predicate Precedes(s: Blob, t: Blob) {
    exists k :: 0 <= k <= |s| && k < |t| && s[..k] == t[..k] && (k == |s| || s[k] < t[k])
  }

  lemma {:induction false} LessPrecedes(s: Blob, t: Blob) returns (k: nat)
    requires TextLess(s, t)
    ensures k <= |s| && k < |t| && s[..k] == t[..k] && (k == |s| || s[k] < t[k])
  {
    if s == [] || s[0] < t[0] {
      k := 0;
    } else {
      var j := LessPrecedes(s[1..], t[1..]);
      k := j + 1;
      assert s[..k] == [s[0]] + s[1..][..j] && t[..k] == [t[0]] + t[1..][..j];
    }
  }

  lemma {:induction false} PrecedesLess(s: Blob, t: Blob, k: nat)
    requires k <= |s| && k < |t| && s[..k] == t[..k] && (k == |s| || s[k] < t[k])
    ensures TextLess(s, t)
  {
    if k > 0 {
      assert s[0] == s[..k][0] == t[..k][0] == t[0];
      assert s[1..][..k - 1] == s[..k][1..] && t[1..][..k - 1] == t[..k][1..];
      PrecedesLess(s[1..], t[1..], k - 1);
    }
  }

  lemma LessIsPrecedes(s: Blob, t: Blob)
    ensures TextLess(s, t) <==> Precedes(s, t)
  {
    hide TextLess;
    if TextLess(s, t) {
      var k := LessPrecedes(s, t);
    }
    if Precedes(s, t) {
      var k :| 0 <= k <= |s| && k < |t| && s[..k] == t[..k] && (k == |s| || s[k] < t[k]);
      PrecedesLess(s, t, k);
    }
  }

  /** Of two different strings exactly one precedes the other. */
  lemma {:induction false} TextTotal(s: Blob, t: Blob)
    ensures !(TextLess(s, t) && TextLess(t, s))
    ensures s == t <==> !TextLess(s, t) && !TextLess(t, s)
    decreases |s|
  {
    if s != [] && t != [] && s[0] == t[0] {
      TextTotal(s[1..], t[1..]);
      assert s == [s[0]] + s[1..] && t == [t[0]] + t[1..];
    }
  }

  lemma {:induction false} TextTransitive(s: Blob, t: Blob, u: Blob)
    requires TextLess(s, t) && TextLess(t, u)
    ensures TextLess(s, u)
    decreases |s|
  {
    if s != [] && s[0] == t[0] == u[0] {
      TextTransitive(s[1..], t[1..], u[1..]);
    }
  }

  // ------------------------------------------------------------------- operands

  function NameOf(f: Field): Blob {
    if f.name.Some? then f.name.value else []
  }

  /** How many of the fields bear the name. */
  function Bearing(fields: seq<Field>, name: Blob): nat {
    if fields == [] then 0
    else (if NameOf(fields[0]) == name then 1 else 0) + Bearing(fields[1..], name)
  }

  /** The field at `p` is number `n` of its name, counted from 0. */
  predicate NthOfName(fields: seq<Field>, name: Blob, n: nat, p: nat) {
    p < |fields| && NameOf(fields[p]) == name && Bearing(fields[..p], name) == n
  }

  lemma {:induction false} BearingSnoc(fields: seq<Field>, f: Field, name: Blob)
    ensures Bearing(fields + [f], name) == Bearing(fields, name) + if NameOf(f) == name then 1 else 0
  {
    if fields == [] {
      assert fields + [f] == [f];
    } else {
      assert (fields + [f])[1..] == fields[1..] + [f];
      BearingSnoc(fields[1..], f, name);
    }
  }

  lemma {:induction false} NamedCounts(fields: seq<Field>, name: Blob)
    ensures |Named(fields, name)| == Bearing(fields, name)
  {
    if fields != [] {
      var front, last := fields[..|fields| - 1], fields[|fields| - 1];
      NamedCounts(front, name);
      BearingSnoc(front, last, name);
      assert fields == front + [last];
    }
  }

  /** The references of a statement count the fields of a name in message order. */
  lemma NthIsFound(msg: Message, ref: Symbol, p: nat)
    requires NthOfName(msg.fields, ref.token, ref.fieldIndex, p)
    ensures LookUp(msg, ref) == Some(msg.fields[p])
    ensures ref.fieldIndex < |Named(msg.fields, ref.token)| && Named(msg.fields, ref.token)[ref.fieldIndex] == msg.fields[p]
  {
    var fields := msg.fields;
    NamedCounts(fields[..p], ref.token);
    NamedGrows(fields, ref.token, p + 1);
    assert fields[..p + 1][..p] == fields[..p];
    assert Named(fields[..p + 1], ref.token) == Named(fields[..p], ref.token) + [fields[p]];
  }

  /** There is no such field exactly if too few bear the name. */
  lemma NoneIsFound(msg: Message, ref: Symbol)
    ensures LookUp(msg, ref) == None <==> Bearing(msg.fields, ref.token) <= ref.fieldIndex
  {
    NamedCounts(msg.fields, ref.token);
  }

  /** A field of a value type, STRING if it has none. */
  predicate OfType(f: Field, t: int) {
    t == if f.valueType.Some? then f.valueType.value else STRING
  }

  /** The text a reference stands for. */
  ghost predicate TextOperand(lib: Library, msg: Message, ref: Symbol, s: Blob) {
    match ref.tokenId
    case VarUuid => s == if msg.uuid.Some? && |msg.uuid.value| == 16 then lib.uuidText(msg.uuid.value) else []
    case VarType => s == if msg.msgType.Some? then msg.msgType.value else []
    case VarLogger => s == if msg.logger.Some? then msg.logger.value else []
    case VarPayload => s == if msg.payload.Some? then msg.payload.value else []
    case VarEnvVersion => s == if msg.envVersion.Some? then msg.envVersion.value else []
    case VarHostname => s == if msg.hostname.Some? then msg.hostname.value else []
    case VarFields =>
      exists p: nat :: && NthOfName(msg.fields, ref.token, ref.fieldIndex, p)
                       && var f := msg.fields[p];
                       || (OfType(f, STRING) && ref.arrayIndex < |f.strings| && s == f.strings[ref.arrayIndex])
                       || (OfType(f, BYTES) && ref.arrayIndex < |f.blobs| && s == f.blobs[ref.arrayIndex])
    case _ => false
  }

  /** The number a reference stands for, as a float64. */
  ghost predicate NumberOperand(lib: Library, msg: Message, ref: Symbol, x: uint64) {
    match ref.tokenId
    case VarTimestamp => x == lib.float(if msg.timestamp.Some? then msg.timestamp.value else 0)
    case VarSeverity => x == lib.float(if msg.severity.Some? then msg.severity.value else 7)
    case VarPid => x == lib.float(if msg.pid.Some? then msg.pid.value else 0)
    case VarFields =>
      exists p: nat :: && NthOfName(msg.fields, ref.token, ref.fieldIndex, p)
                       && var f := msg.fields[p];
                       || (OfType(f, INTEGER) && ref.arrayIndex < |f.integers| && x == lib.float(f.integers[ref.arrayIndex]))
                       || (OfType(f, DOUBLE) && ref.arrayIndex < |f.doubles| && x == f.doubles[ref.arrayIndex])
    case _ => false
  }

  ghost predicate BoolOperand(msg: Message, ref: Symbol, b: bool) {
    && ref.tokenId == VarFields
    && exists p: nat :: && NthOfName(msg.fields, ref.token, ref.fieldIndex, p)
                        && var f := msg.fields[p];
                        OfType(f, BOOL) && ref.arrayIndex < |f.bools| && b == f.bools[ref.arrayIndex]
  }

  /** A text operand is tested as text. */
  lemma TextReached(lib: Library, msg: Message, ref: Symbol, s: Blob, op: Token, value: Symbol)
    requires TextOperand(lib, msg, ref, s) && op !in {TrueToken, FalseToken}
    ensures TestExpr(lib, msg, Statement(ref, op, value)) <==> StringTest(s, Statement(ref, op, value))
  {
    hide StringTest, LookUp, Bearing;
    if ref.tokenId == VarFields {
      var p: nat :| && NthOfName(msg.fields, ref.token, ref.fieldIndex, p)
                    && var f := msg.fields[p];
                    || (OfType(f, STRING) && ref.arrayIndex < |f.strings| && s == f.strings[ref.arrayIndex])
                    || (OfType(f, BYTES) && ref.arrayIndex < |f.blobs| && s == f.blobs[ref.arrayIndex]);
      NthIsFound(msg, ref, p);
    }
  }

  lemma NumberReached(lib: Library, msg: Message, ref: Symbol, x: uint64, op: Token, value: Symbol)
    requires NumberOperand(lib, msg, ref, x) && op !in {TrueToken, FalseToken}
    ensures TestExpr(lib, msg, Statement(ref, op, value)) <==> NumericTest(lib, x, Statement(ref, op, value))
  {
    hide NumericTest, LookUp, Bearing;
    if ref.tokenId == VarFields {
      var p: nat :| && NthOfName(msg.fields, ref.token, ref.fieldIndex, p)
                    && var f := msg.fields[p];
                    || (OfType(f, INTEGER) && ref.arrayIndex < |f.integers| && x == lib.float(f.integers[ref.arrayIndex]))
                    || (OfType(f, DOUBLE) && ref.arrayIndex < |f.doubles| && x == f.doubles[ref.arrayIndex]);
      NthIsFound(msg, ref, p);
    }
  }

  lemma BoolReached(lib: Library, msg: Message, ref: Symbol, b: bool, op: Token, value: Symbol)
    requires BoolOperand(msg, ref, b) && op !in {TrueToken, FalseToken}
    ensures TestExpr(lib, msg, Statement(ref, op, value)) <==> BoolTest(b, Statement(ref, op, value))
  {
    hide StringTest, NumericTest, BoolTest, LookUp, Bearing;
    var p: nat :| && NthOfName(msg.fields, ref.token, ref.fieldIndex, p)
                  && var f := msg.fields[p];
                  OfType(f, BOOL) && ref.arrayIndex < |f.bools| && b == f.bools[ref.arrayIndex];
    NthIsFound(msg, ref, p);
  }

  // ----------------------------------------------------------------- the tests

  ghost predicate Says(lib: Library, msg: Message, ref: Symbol, op: Token, value: Symbol) {
    TestExpr(lib, msg, Statement(ref, op, value))
  }

  /** Text against a string or a pattern. */
  lemma TextLaws(lib: Library, msg: Message, ref: Symbol, s: Blob, value: Symbol)
    requires TextOperand(lib, msg, ref, s) && value.tokenId !in {NumericValue, NilValue}
    ensures Says(lib, msg, ref, OpEq, value) <==> s == value.token
    ensures Says(lib, msg, ref, OpNe, value) <==> s != value.token
    ensures Says(lib, msg, ref, OpLt, value) <==> Precedes(s, value.token)
    ensures Says(lib, msg, ref, OpGt, value) <==> Precedes(value.token, s)
    ensures Says(lib, msg, ref, OpLte, value) <==> s == value.token || Precedes(s, value.token)
    ensures Says(lib, msg, ref, OpGte, value) <==> s == value.token || Precedes(value.token, s)
    ensures Says(lib, msg, ref, OpLte, value) <==> !Says(lib, msg, ref, OpGt, value)
    ensures Says(lib, msg, ref, OpGte, value) <==> !Says(lib, msg, ref, OpLt, value)
  {
    hide TestExpr, TextOperand, Precedes, TextLess;
    TextReached(lib, msg, ref, s, OpEq, value);
    TextReached(lib, msg, ref, s, OpNe, value);
    TextReached(lib, msg, ref, s, OpLt, value);
    TextReached(lib, msg, ref, s, OpGt, value);
    TextReached(lib, msg, ref, s, OpLte, value);
    TextReached(lib, msg, ref, s, OpGte, value);
    LessIsPrecedes(s, value.token);
    LessIsPrecedes(value.token, s);
    TextTotal(s, value.token);
  }

  /** Text against a pattern: a regular expression, a beginning or an end; or nothing
    * that either operator could hold of. */
  lemma PatternLaws(lib: Library, msg: Message, ref: Symbol, s: Blob, value: Symbol)
    requires TextOperand(lib, msg, ref, s) && value.tokenId !in {NumericValue, NilValue}
    ensures var matches, differs := Says(lib, msg, ref, OpRe, value), Says(lib, msg, ref, OpNre, value);
            if value.regexp.Some? then (matches <==> value.regexp.value(s)) && (differs <==> !value.regexp.value(s))
            else if value.fieldIndex == 1 then
              (matches <==> exists rest :: s == value.token + rest) && (differs <==> !matches)
            else if value.fieldIndex == 2 then
              (matches <==> exists front :: s == front + value.token) && (differs <==> !matches)
            else !matches && !differs
  {
    hide TestExpr, TextOperand;
    TextReached(lib, msg, ref, s, OpRe, value);
    TextReached(lib, msg, ref, s, OpNre, value);
    BeginsOrEnds(s, value.token);
  }

  lemma BeginsOrEnds(s: Blob, t: Blob)
    ensures t <= s <==> exists rest :: s == t + rest
    ensures HasSuffix(s, t) <==> exists front :: s == front + t
  {
    if t <= s {
      assert s == t + s[|t|..];
    }
    if HasSuffix(s, t) {
      assert s == s[..|s| - |t|] + t;
    }
  }

  /** Text is never tested against a number, and always differs from NIL. */
  lemma TextAgainstOthers(lib: Library, msg: Message, ref: Symbol, s: Blob, op: Token, value: Symbol)
    requires TextOperand(lib, msg, ref, s) && op !in {TrueToken, FalseToken}
    ensures value.tokenId == NumericValue ==> !Says(lib, msg, ref, op, value)
    ensures value.tokenId == NilValue && op == OpEq ==> !Says(lib, msg, ref, op, value)
    ensures value.tokenId == NilValue && op == OpNe ==> Says(lib, msg, ref, op, value)
  {
    hide TestExpr, TextOperand;
    TextReached(lib, msg, ref, s, op, value);
  }

  /** A number against a number. */
  lemma NumberLaws(lib: Library, msg: Message, ref: Symbol, x: uint64, value: Symbol)
    requires NumberOperand(lib, msg, ref, x) && value.tokenId == NumericValue
    ensures Says(lib, msg, ref, OpEq, value) <==> lib.floatEqual(x, value.double)
    ensures Says(lib, msg, ref, OpNe, value) <==> !lib.floatEqual(x, value.double)
    ensures Says(lib, msg, ref, OpLt, value) <==> lib.floatLess(x, value.double)
    ensures Says(lib, msg, ref, OpGt, value) <==> lib.floatLess(value.double, x)
    ensures Says(lib, msg, ref, OpLte, value) <==> lib.floatLess(x, value.double) || lib.floatEqual(x, value.double)
    ensures Says(lib, msg, ref, OpGte, value) <==> lib.floatLess(value.double, x) || lib.floatEqual(x, value.double)
    ensures !Says(lib, msg, ref, OpRe, value) && !Says(lib, msg, ref, OpNre, value)
  {
    hide TestExpr, NumberOperand;
    NumberReached(lib, msg, ref, x, OpEq, value);
    NumberReached(lib, msg, ref, x, OpNe, value);
    NumberReached(lib, msg, ref, x, OpLt, value);
    NumberReached(lib, msg, ref, x, OpGt, value);
    NumberReached(lib, msg, ref, x, OpLte, value);
    NumberReached(lib, msg, ref, x, OpGte, value);
    NumberReached(lib, msg, ref, x, OpRe, value);
    NumberReached(lib, msg, ref, x, OpNre, value);
  }

  /** A number is never tested against text, and always differs from NIL. */
  lemma NumberAgainstOthers(lib: Library, msg: Message, ref: Symbol, x: uint64, op: Token, value: Symbol)
    requires NumberOperand(lib, msg, ref, x) && op !in {TrueToken, FalseToken}
    ensures value.tokenId !in {NumericValue, NilValue} ==> !Says(lib, msg, ref, op, value)
    ensures value.tokenId == NilValue && op == OpEq ==> !Says(lib, msg, ref, op, value)
    ensures value.tokenId == NilValue && op == OpNe ==> Says(lib, msg, ref, op, value)
  {
    hide TestExpr, NumberOperand;
    NumberReached(lib, msg, ref, x, op, value);
  }

  /** A boolean against TRUE, FALSE or NIL; the operator matters for NIL only. */
  lemma BoolLaws(lib: Library, msg: Message, ref: Symbol, b: bool, op: Token, value: Symbol)
    requires BoolOperand(msg, ref, b) && op !in {TrueToken, FalseToken}
    ensures value.tokenId == TrueToken ==> (Says(lib, msg, ref, op, value) <==> b)
    ensures value.tokenId !in {TrueToken, NilValue} ==> (Says(lib, msg, ref, op, value) <==> !b)
    ensures value.tokenId == NilValue ==> (Says(lib, msg, ref, op, value) <==> op != OpEq)
  {
    hide TestExpr, BoolOperand;
    BoolReached(lib, msg, ref, b, op, value);
  }

  /** The value a reference names is not there: too few fields bear the name, or that
    * field holds too few values. */
  ghost predicate Missing(msg: Message, ref: Symbol) {
    || Bearing(msg.fields, ref.token) <= ref.fieldIndex
    || exists p: nat :: && NthOfName(msg.fields, ref.token, ref.fieldIndex, p)
                        && var f := msg.fields[p];
                        || (OfType(f, STRING) && |f.strings| <= ref.arrayIndex)
                        || (OfType(f, BYTES) && |f.blobs| <= ref.arrayIndex)
                        || (OfType(f, INTEGER) && |f.integers| <= ref.arrayIndex)
                        || (OfType(f, DOUBLE) && |f.doubles| <= ref.arrayIndex)
                        || (OfType(f, BOOL) && |f.bools| <= ref.arrayIndex)
  }

  /** Of a value that is missing only `== NIL` holds. */
  lemma MissingLaws(lib: Library, msg: Message, ref: Symbol, op: Token, value: Symbol)
    requires ref.tokenId == VarFields && Missing(msg, ref) && op !in {TrueToken, FalseToken}
    ensures Says(lib, msg, ref, op, value) <==> op == OpEq && value.tokenId == NilValue
  {
    hide StringTest, NumericTest, LookUp, Bearing;
    NoneIsFound(msg, ref);
    if Bearing(msg.fields, ref.token) > ref.fieldIndex {
      var p: nat :| && NthOfName(msg.fields, ref.token, ref.fieldIndex, p)
                    && var f := msg.fields[p];
                    || (OfType(f, STRING) && |f.strings| <= ref.arrayIndex)
                    || (OfType(f, BYTES) && |f.blobs| <= ref.arrayIndex)
                    || (OfType(f, INTEGER) && |f.integers| <= ref.arrayIndex)
                    || (OfType(f, DOUBLE) && |f.doubles| <= ref.arrayIndex)
                    || (OfType(f, BOOL) && |f.bools| <= ref.arrayIndex);
      NthIsFound(msg, ref, p);
    }
  }

  /** TRUE and FALSE stand for themselves. */
  lemma ConstantLaws(lib: Library, msg: Message, ref: Symbol, value: Symbol)
    ensures Says(lib, msg, ref, TrueToken, value) && !Says(lib, msg, ref, FalseToken, value)
  {
  }
}
