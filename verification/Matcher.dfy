/** Message matchers: a specification compiled to a tree, and the tree evaluated
  * against a message. */
module Matcher {
  import opened Bytes
  import opened Wire
  import opened Varint

  datatype Token =
    | NoToken
    | OpEq | OpNe | OpGt | OpGte | OpLt | OpLte | OpRe | OpNre
    | OpOr | OpAnd
    | VarUuid | VarType | VarLogger | VarPayload | VarEnvVersion | VarHostname
    | VarTimestamp | VarSeverity | VarPid
    | VarFields
    | StringValue | NumericValue | RegexpValue | NilValue
    | TrueToken | FalseToken

  const STARTS_WITH := 1
  const ENDS_WITH := 2

  /** A regular expression is the predicate it matches; a float64 is its bit pattern. */
  datatype Symbol = Symbol(
    tokenId: Token,
    token: Blob,
    double: uint64,
    fieldIndex: nat,
    arrayIndex: nat,
    regexp: Option<Blob -> bool>)

  datatype Statement = Statement(field: Symbol, op: Token, value: Symbol)

  datatype Tree = Nil | Node(left: Tree, stmt: Statement, right: Tree)

  /** What the evaluator takes from outside: the text of a UUID, and float64. */
  datatype Library = Library(
    uuidText: Blob -> Blob,
    float: int64 -> uint64,
    floatEqual: (uint64, uint64) -> bool,
    floatLess: (uint64, uint64) -> bool)

  // ------------------------------------------------------------- field lookup

  function Get<T>(o: Option<T>, default: T): T {
    if o.Some? then o.value else default
  }

  /** All fields of a name, in message order. */
  function Named(fields: seq<Field>, name: Blob): seq<Field> {
    if fields == [] then []
    else
      var last := fields[|fields| - 1];
      Named(fields[..|fields| - 1], name) + if Get(last.name, []) == name then [last] else []
  }

  /** FindFirstField. */
  method FindFirstField(fields: seq<Field>, name: Blob) returns (first: Option<Field>)
    ensures first == FirstOf(fields, name)
  {
    for i := 0 to |fields|
      invariant Named(fields[..i], name) == []
    {
      assert fields[..i + 1][..i] == fields[..i];
      if Get(fields[i].name, []) == name {
        NamedGrows(fields, name, i + 1);
        return Some(fields[i]);
      }
    }
    assert fields[..|fields|] == fields;
    return None;
  }

  /** The first of the fields of a name. */
  function FirstOf(fields: seq<Field>, name: Blob): Option<Field> {
    var named := Named(fields, name);
    if named == [] then None else Some(named[0])
  }

  lemma {:induction false} NamedGrows(fields: seq<Field>, name: Blob, k: nat)
    requires k <= |fields|
    ensures Named(fields[..k], name) <= Named(fields, name)
  {
    if k < |fields| {
      assert fields[..|fields| - 1][..k] == fields[..k];
      NamedGrows(fields[..|fields| - 1], name, k);
    } else {
      assert fields[..k] == fields;
    }
  }

  /** FindAllFields, with the slice it grows by hand: `count` fields in `all`. */
  method FindAllFields(fields: seq<Field>, name: Blob) returns (all: array<Field>, count: nat)
    ensures count <= all.Length && all[..count] == Named(fields, name)
  {
    all, count := new Field[0], 0;
    for i := 0 to |fields|
      invariant fresh(all) && count <= all.Length
      invariant all[..count] == Named(fields[..i], name)
    {
      assert fields[..i + 1][..i] == fields[..i];
      var field := fields[i];
      if Get(field.name, []) == name {
        if count == all.Length {
          var larger := new Field[all.Length * 2 + 1];
          forall k | 0 <= k < count {
            larger[k] := all[k];
          }
          assert larger[..count] == all[..count];
          all := larger;
        }
        all[count] := field;
        count := count + 1;
        assert all[..count] == all[..count - 1] + [field];
      }
    }
    assert fields[..|fields|] == fields;
  }

  // --------------------------------------------------------------- leaf tests

  /** Go's order on strings. */
  predicate TextLess(s: Blob, t: Blob) {
    t != [] && (s == [] || s[0] < t[0] || (s[0] == t[0] && TextLess(s[1..], t[1..])))
  }

  predicate HasSuffix(s: Blob, t: Blob) {
    |t| <= |s| && s[|s| - |t|..] == t
  }

  predicate TextMatches(s: Blob, value: Symbol) {
    if value.regexp.Some? then value.regexp.value(s)
    else if value.fieldIndex == STARTS_WITH then value.token <= s
    else value.fieldIndex == ENDS_WITH && HasSuffix(s, value.token)
  }

  predicate Matchable(value: Symbol) {
    value.regexp.Some? || value.fieldIndex == STARTS_WITH || value.fieldIndex == ENDS_WITH
  }

  predicate StringTest(s: Blob, stmt: Statement) {
    stmt.value.tokenId != NumericValue &&
    match stmt.op
    case OpEq => stmt.value.tokenId != NilValue && s == stmt.value.token
    case OpNe => stmt.value.tokenId == NilValue || s != stmt.value.token
    case OpLt => TextLess(s, stmt.value.token)
    case OpLte => !TextLess(stmt.value.token, s)
    case OpGt => TextLess(stmt.value.token, s)
    case OpGte => !TextLess(s, stmt.value.token)
    case OpRe => TextMatches(s, stmt.value)
    case OpNre => Matchable(stmt.value) && !TextMatches(s, stmt.value)
    case _ => false
  }

  predicate NumericTest(lib: Library, f: uint64, stmt: Statement) {
    (stmt.value.tokenId == NumericValue || stmt.value.tokenId == NilValue) &&
    var d := stmt.value.double;
    match stmt.op
    case OpEq => stmt.value.tokenId != NilValue && lib.floatEqual(f, d)
    case OpNe => stmt.value.tokenId == NilValue || !lib.floatEqual(f, d)
    case OpLt => lib.floatLess(f, d)
    case OpLte => lib.floatLess(f, d) || lib.floatEqual(f, d)
    case OpGt => lib.floatLess(d, f)
    case OpGte => lib.floatLess(d, f) || lib.floatEqual(f, d)
    case _ => false
  }

  predicate TestNonExistence(stmt: Statement) {
    stmt.value.tokenId == NilValue && stmt.op == OpEq
  }

  predicate BoolTest(b: bool, stmt: Statement) {
    if stmt.value.tokenId == NilValue then stmt.op != OpEq
    else b == (stmt.value.tokenId == TrueToken)
  }

  function StringVar(lib: Library, msg: Message, v: Token): Option<Blob> {
    match v
    case VarUuid => Some(if |Get(msg.uuid, [])| == 16 then lib.uuidText(Get(msg.uuid, [])) else [])
    case VarType => Some(Get(msg.msgType, []))
    case VarLogger => Some(Get(msg.logger, []))
    case VarPayload => Some(Get(msg.payload, []))
    case VarEnvVersion => Some(Get(msg.envVersion, []))
    case VarHostname => Some(Get(msg.hostname, []))
    case _ => None
  }

  function NumericVar(lib: Library, msg: Message, v: Token): Option<uint64> {
    match v
    case VarTimestamp => Some(lib.float(Get(msg.timestamp, 0)))
    case VarSeverity => Some(lib.float(Get(msg.severity, 7)))
    case VarPid => Some(lib.float(Get(msg.pid, 0)))
    case _ => None
  }

  const STRING := 0
  const BYTES := 1
  const INTEGER := 2
  const DOUBLE := 3
  const BOOL := 4

  function TypeOf(f: Field): int { Get(f.valueType, STRING) }

  predicate FieldTest(lib: Library, f: Field, ai: nat, stmt: Statement) {
    if TypeOf(f) == STRING then
      if ai >= |f.strings| then TestNonExistence(stmt) else StringTest(f.strings[ai], stmt)
    else if TypeOf(f) == BYTES then
      if ai >= |f.blobs| then TestNonExistence(stmt) else StringTest(f.blobs[ai], stmt)
    else if TypeOf(f) == INTEGER then
      if ai >= |f.integers| then TestNonExistence(stmt) else NumericTest(lib, lib.float(f.integers[ai]), stmt)
    else if TypeOf(f) == DOUBLE then
      if ai >= |f.doubles| then TestNonExistence(stmt) else NumericTest(lib, f.doubles[ai], stmt)
    else if TypeOf(f) == BOOL then
      if ai >= |f.bools| then TestNonExistence(stmt) else BoolTest(f.bools[ai], stmt)
    else false
  }

  /** The field a statement refers to: index 0 by FindFirstField, any other by
    * FindAllFields. */
  function LookUp(msg: Message, ref: Symbol): Option<Field> {
    if ref.fieldIndex != 0 then
      var fields := Named(msg.fields, ref.token);
      if ref.fieldIndex >= |fields| then None else Some(fields[ref.fieldIndex])
    else
      FirstOf(msg.fields, ref.token)
  }

  predicate TestExpr(lib: Library, msg: Message, stmt: Statement) {
    if stmt.op == TrueToken then true
    else if stmt.op == FalseToken then false
    else if StringVar(lib, msg, stmt.field.tokenId).Some? then
      StringTest(StringVar(lib, msg, stmt.field.tokenId).value, stmt)
    else if NumericVar(lib, msg, stmt.field.tokenId).Some? then
      NumericTest(lib, NumericVar(lib, msg, stmt.field.tokenId).value, stmt)
    else if stmt.field.tokenId == VarFields then
      var field := LookUp(msg, stmt.field);
      if field.None? then TestNonExistence(stmt)
      else FieldTest(lib, field.value, stmt.field.arrayIndex, stmt)
    else false
  }

  // -------------------------------------------------- existence and equality

  predicate KnownType(f: Field) { STRING <= TypeOf(f) <= BOOL }

  /** How many values a field holds of its own type. */
  function Values(f: Field): nat {
    if TypeOf(f) == STRING then |f.strings|
    else if TypeOf(f) == BYTES then |f.blobs|
    else if TypeOf(f) == INTEGER then |f.integers|
    else if TypeOf(f) == DOUBLE then |f.doubles|
    else if TypeOf(f) == BOOL then |f.bools|
    else 0
  }

  /** The value a reference names exists. */
  predicate Exists(msg: Message, ref: Symbol) {
    var fields := Named(msg.fields, ref.token);
    ref.fieldIndex < |fields| && ref.arrayIndex < Values(fields[ref.fieldIndex])
  }

  /** The reference leads to a field whose value type no case of testExpr handles. */
  predicate StrayType(msg: Message, ref: Symbol) {
    var fields := Named(msg.fields, ref.token);
    ref.fieldIndex < |fields| && !KnownType(fields[ref.fieldIndex])
  }

  ghost predicate NilStatements(eq: Statement, ne: Statement) {
    && eq.field == ne.field && eq.field.tokenId == VarFields
    && eq.value.tokenId == ne.value.tokenId == NilValue && eq.op == OpEq && ne.op == OpNe
  }

  /** `== NIL` says the value does not exist and `!= NIL` is its complement, exactly
    * when the field is not one of a stray value type; then both are false. */
  lemma NilTests(lib: Library, msg: Message, eq: Statement, ne: Statement)
    requires NilStatements(eq, ne)
    ensures TestExpr(lib, msg, ne) <==> Exists(msg, eq.field)
    ensures TestExpr(lib, msg, eq) <==> !Exists(msg, eq.field) && !StrayType(msg, eq.field)
    ensures (TestExpr(lib, msg, eq) <==> !TestExpr(lib, msg, ne)) <==> !StrayType(msg, eq.field)
  {
    var fields := Named(msg.fields, eq.field.token);
    if eq.field.fieldIndex < |fields| {
      var f := fields[eq.field.fieldIndex];
      assert LookUp(msg, eq.field) == Some(f);
      NilInField(lib, f, eq.field.arrayIndex, eq, ne);
    } else {
      assert LookUp(msg, eq.field) == None;
    }
  }

  lemma NilInField(lib: Library, f: Field, ai: nat, eq: Statement, ne: Statement)
    requires NilStatements(eq, ne)
    ensures FieldTest(lib, f, ai, ne) <==> ai < Values(f)
    ensures FieldTest(lib, f, ai, eq) <==> ai >= Values(f) && KnownType(f)
  {
  }

  /** A message with a field of value type 5: neither `Fields[] == NIL` nor
    * `Fields[] != NIL` matches it. */
  lemma StrayTypeExample(lib: Library)
    ensures exists msg, eq, ne ::
              && NilStatements(eq, ne)
              && !TestExpr(lib, msg, eq) && !TestExpr(lib, msg, ne)
  {
    var f := EmptyField.(valueType := Some(5));
    var msg := EmptyMessage.(fields := [f]);
    var ref := Symbol(VarFields, [], 0, 0, 0, None);
    var eq := Statement(ref, OpEq, ref.(tokenId := NilValue));
    assert Named([f], []) == [f] by {
      assert [f][..0] == [];
    }
    assert StrayType(msg, ref);
    NilTests(lib, msg, eq, eq.(op := OpNe));
  }

  /** The value has the kind of the literal a statement compares it with. */
  predicate SameKind(msg: Message, ref: Symbol, literal: Token) {
    && Exists(msg, ref)
    && var t := TypeOf(Named(msg.fields, ref.token)[ref.fieldIndex]);
       if literal == StringValue then t == STRING || t == BYTES else t == INTEGER || t == DOUBLE
  }

  /** `==` and `!=` with a string or a number are opposites exactly for a value that
    * exists and has the literal's kind. */
  lemma EqualityTests(lib: Library, msg: Message, eq: Statement, ne: Statement)
    requires eq.field == ne.field && eq.field.tokenId == VarFields
    requires eq.value == ne.value && (eq.value.tokenId == StringValue || eq.value.tokenId == NumericValue)
    requires eq.op == OpEq && ne.op == OpNe
    ensures TestExpr(lib, msg, eq) != TestExpr(lib, msg, ne) <==> SameKind(msg, eq.field, eq.value.tokenId)
  {
    var fields := Named(msg.fields, eq.field.token);
    if eq.field.fieldIndex < |fields| {
      assert LookUp(msg, eq.field) == Some(fields[eq.field.fieldIndex]);
    } else {
      assert LookUp(msg, eq.field) == None;
    }
  }

  /** With a string or number, any operator only asks whether a boolean is false. */
  lemma BooleanTest(lib: Library, msg: Message, stmt: Statement, f: Field)
    requires stmt.field.tokenId == VarFields && LookUp(msg, stmt.field) == Some(f)
    requires TypeOf(f) == BOOL && stmt.field.arrayIndex < |f.bools|
    requires stmt.op !in {TrueToken, FalseToken} && stmt.value.tokenId in {StringValue, NumericValue}
    ensures TestExpr(lib, msg, stmt) <==> !f.bools[stmt.field.arrayIndex]
  {
    hide LookUp, StringTest, NumericTest;
  }

  /** So `Fields[] == "x"` and `Fields[] != "x"` both match a message whose field is
    * false. */
  lemma BooleanExample(lib: Library)
    ensures var f := EmptyField.(valueType := Some(4), bools := [false]);
            var msg := EmptyMessage.(fields := [f]);
            var ref, value := Symbol(VarFields, [], 0, 0, 0, None), Symbol(StringValue, [120], 0, 0, 0, None);
            TestExpr(lib, msg, Statement(ref, OpEq, value)) && TestExpr(lib, msg, Statement(ref, OpNe, value))
  {
    hide TestExpr;
    var f := EmptyField.(valueType := Some(4), bools := [false]);
    var msg := EmptyMessage.(fields := [f]);
    var ref, value := Symbol(VarFields, [], 0, 0, 0, None), Symbol(StringValue, [120], 0, 0, 0, None);
    OneField(f);
    BooleanTest(lib, msg, Statement(ref, OpEq, value), f);
    BooleanTest(lib, msg, Statement(ref, OpNe, value), f);
  }

  lemma OneField(f: Field)
    requires f.name == None
    ensures Named([f], []) == [f]
  {
    assert [f][..0] == [];
  }

  // --------------------------------------------------------------- evaluation

  /** evalMatcherSpecification. */
  predicate Eval(lib: Library, t: Tree, msg: Message) {
    if t.Nil? then false
    else if t.left.Nil? then TestExpr(lib, msg, t.stmt)
    else
      var b := Eval(lib, t.left, msg);
      if b && t.stmt.op == OpOr then b
      else if !b && t.stmt.op == OpAnd then b
      else if t.right.Node? then Eval(lib, t.right, msg)
      else b
  }

  /** A specification as its grammar reads it. */
  datatype Expr = Leaf(stmt: Statement) | And(left: Expr, op: Statement, right: Expr) | Or(left: Expr, op: Statement, right: Expr)

  /** A leaf is not an AND or OR, and the others carry their operator. */
  predicate Parsed(e: Expr) {
    match e
    case Leaf(stmt) => stmt.op != OpAnd && stmt.op != OpOr
    case And(l, op, r) => op.op == OpAnd && Parsed(l) && Parsed(r)
    case Or(l, op, r) => op.op == OpOr && Parsed(l) && Parsed(r)
  }

  predicate Meaning(lib: Library, e: Expr, msg: Message) {
    match e
    case Leaf(stmt) => TestExpr(lib, msg, stmt)
    case And(l, _, r) => Meaning(lib, l, msg) && Meaning(lib, r, msg)
    case Or(l, _, r) => Meaning(lib, l, msg) || Meaning(lib, r, msg)
  }

  function TreeOf(e: Expr): Tree {
    match e
    case Leaf(stmt) => Node(Nil, stmt, Nil)
    case And(l, op, r) => Node(TreeOf(l), op, TreeOf(r))
    case Or(l, op, r) => Node(TreeOf(l), op, TreeOf(r))
  }

  /** Short-circuit evaluation is plain AND and OR over the leaves. */
  lemma {:induction false} EvalIsMeaning(lib: Library, e: Expr, msg: Message)
    requires Parsed(e)
    ensures TreeOf(e).Node? && (Eval(lib, TreeOf(e), msg) <==> Meaning(lib, e, msg))
  {
    match e
    case Leaf(_) =>
    case And(l, _, r) => EvalIsMeaning(lib, l, msg); EvalIsMeaning(lib, r, msg);
    case Or(l, _, r) => EvalIsMeaning(lib, l, msg); EvalIsMeaning(lib, r, msg);
  }

  // -------------------------------------------------------------- compilation

  /** The statements in the order the parser's rules reduce: operands first. */
  function Postfix(e: Expr): seq<Statement> {
    match e
    case Leaf(stmt) => [stmt]
    case And(l, op, r) => Postfix(l) + (Postfix(r) + [op])
    case Or(l, op, r) => Postfix(l) + (Postfix(r) + [op])
  }

  function PostfixAll(es: seq<Expr>): seq<Statement> {
    if es == [] then [] else Postfix(es[0]) + PostfixAll(es[1..])
  }

  function Top(stack: seq<Tree>): Tree { if stack == [] then Nil else stack[0] }

  function Below(stack: seq<Tree>): seq<Tree> { if stack == [] then [] else stack[1..] }

  function Push(stmt: Statement, stack: seq<Tree>): seq<Tree> {
    if stmt.op != OpOr && stmt.op != OpAnd then [Node(Nil, stmt, Nil)] + stack
    else [Node(Top(Below(stack)), stmt, Top(stack))] + Below(Below(stack))
  }

  function PushAll(stmts: seq<Statement>, stack: seq<Tree>): seq<Tree> {
    if stmts == [] then stack else PushAll(stmts[1..], Push(stmts[0], stack))
  }

  /** The loop of parseMatcherSpecification over the collected nodes; popping an
    * empty stack gives nil. */
  method Compile(nodes: seq<Statement>) returns (vm: Tree)
    ensures vm == Top(PushAll(nodes, []))
  {
    var stack: seq<Tree> := [];
    for i := 0 to |nodes|
      invariant PushAll(nodes, []) == PushAll(nodes[i..], stack)
    {
      var stmt := nodes[i];
      assert nodes[i..][1..] == nodes[i + 1..];
      if stmt.op != OpOr && stmt.op != OpAnd {
        stack := [Node(Nil, stmt, Nil)] + stack;
      } else {
        var right, left := Nil, Nil;
        if |stack| > 0 {
          right, stack := stack[0], stack[1..];
        }
        if |stack| > 0 {
          left, stack := stack[0], stack[1..];
        }
        stack := [Node(left, stmt, right)] + stack;
      }
    }
    vm := if |stack| > 0 then stack[0] else Nil;
  }

  lemma {:induction false} PushParts(a: seq<Statement>, b: seq<Statement>, stack: seq<Tree>)
    ensures PushAll(a + b, stack) == PushAll(b, PushAll(a, stack))
  {
    if a == [] {
      assert a + b == b;
    } else {
      assert (a + b)[1..] == a[1..] + b;
      PushParts(a[1..], b, Push(a[0], stack));
    }
  }

  lemma PushBoth(l: Expr, op: Statement, r: Expr, stack: seq<Tree>)
    requires op.op == OpAnd || op.op == OpOr
    requires PushAll(Postfix(l), stack) == [TreeOf(l)] + stack
    requires PushAll(Postfix(r), [TreeOf(l)] + stack) == [TreeOf(r)] + ([TreeOf(l)] + stack)
    ensures PushAll(Postfix(l) + (Postfix(r) + [op]), stack) == [Node(TreeOf(l), op, TreeOf(r))] + stack
  {
    var one := [TreeOf(l)] + stack;
    PushParts(Postfix(l), Postfix(r) + [op], stack);
    PushParts(Postfix(r), [op], one);
    var two := [TreeOf(r)] + one;
    assert Below(two) == one && Below(one) == stack;
    assert PushAll([op], two) == Push(op, two);
  }

  lemma {:induction false} PushPostfix(e: Expr, stack: seq<Tree>)
    requires Parsed(e)
    ensures PushAll(Postfix(e), stack) == [TreeOf(e)] + stack
  {
    if !e.Leaf? {
      PushPostfix(e.left, stack);
      PushPostfix(e.right, [TreeOf(e.left)] + stack);
      PushBoth(e.left, e.op, e.right, stack);
    }
  }

  lemma {:induction false} PushSeveral(es: seq<Expr>, stack: seq<Tree>)
    requires es != [] && forall e :: e in es ==> Parsed(e)
    ensures Top(PushAll(PostfixAll(es), stack)) == TreeOf(es[|es| - 1])
  {
    PushPostfix(es[0], stack);
    PushParts(Postfix(es[0]), PostfixAll(es[1..]), stack);
    if |es| > 1 {
      PushSeveral(es[1..], [TreeOf(es[0])] + stack);
    }
  }

  /** Match on a parsed specification. The grammar admits several expressions in a
    * row; only the last one decides. */
  method Match(lib: Library, ghost es: seq<Expr>, nodes: seq<Statement>, msg: Message) returns (matched: bool)
    requires es != [] && (forall e :: e in es ==> Parsed(e)) && nodes == PostfixAll(es)
    ensures matched == Meaning(lib, es[|es| - 1], msg)
  {
    var vm := Compile(nodes);
    PushSeveral(es, []);
    EvalIsMeaning(lib, es[|es| - 1], msg);
    matched := Eval(lib, vm, msg);
  }
}
