/** Context expressions: the parser that accumulates issues, the evaluator, and the key collector. */
module ContextExpression {
  import opened Text
  import opened Json

  datatype ContextValue = TextValue(s: string) | BoolValue(b: bool) | NumberValue(n: real)

  datatype Expr =
    | Defined(key: string)
    | Equals(key: string, value: ContextValue)
    | Not(inner: Expr)
    | All(parts: seq<Expr>)
    | Any(parts: seq<Expr>)

  function ToContextValue(value: Value): Option<ContextValue> {
    match value
    case Str(s) => Some(TextValue(s))
    case Bool(b) => Some(BoolValue(b))
    case Finite(n) => Some(NumberValue(n))
    case _ => None
  }

  function FromContextValue(value: ContextValue): Value {
    match value
    case TextValue(s) => Str(s)
    case BoolValue(b) => Bool(b)
    case NumberValue(n) => Finite(n)
  }

  // ---------------------------------------------------------------- the grammar

  datatype Op = OpDefined | OpEquals | OpNot | OpAll | OpAny

  function OpName(op: Op): string {
    match op
    case OpDefined => "defined"
    case OpEquals => "equals"
    case OpNot => "not"
    case OpAll => "all"
    case OpAny => "any"
  }

  function OpNamed(name: string): (r: Option<Op>)
    ensures r.Some? ==> OpName(r.value) == name
  {
    if name == "defined" then Some(OpDefined)
    else if name == "equals" then Some(OpEquals)
    else if name == "not" then Some(OpNot)
    else if name == "all" then Some(OpAll)
    else if name == "any" then Some(OpAny)
    else None
  }

  lemma OpNames(op: Op)
    ensures OpName(op) != "" && OpNamed(OpName(op)) == Some(op)
  {
    assert |"defined"| == 7 && |"equals"| == 6 && |"not"| == 3 && |"all"| == 3 && |"any"| == 3;
    assert "not"[0] == 'n' && "all"[1] == 'l' && "any"[1] == 'n' && "all"[0] == 'a';
  }

  /** The fields an operator allows. */
  function Allowed(op: Op): set<string> {
    match op
    case OpDefined => {"op", "key"}
    case OpEquals => {"op", "key", "value"}
    case OpNot => {"op", "expression"}
    case OpAll => {"op", "expressions"}
    case OpAny => {"op", "expressions"}
  }

  function TwoFields(op: Op, name: string, value: Value): (m: map<string, Value>)
    requires name != "op"
    ensures m.Keys == {"op", name} && m["op"] == Str(OpName(op)) && m[name] == value
  {
    map["op" := Str(OpName(op)), name := value]
  }

  function EqualsFields(key: string, value: Value): (m: map<string, Value>)
    ensures m.Keys == {"op", "key", "value"} && m["op"] == Str(OpName(OpEquals)) && m["key"] == Str(key) && m["value"] == value
  {
    map["op" := Str(OpName(OpEquals)), "key" := Str(key), "value" := value]
  }

  /** The value that denotes an expression. */
  function Print(e: Expr): Value {
    match e
    case Defined(key) => Obj(TwoFields(OpDefined, "key", Str(key)))
    case Equals(key, value) => Obj(EqualsFields(key, FromContextValue(value)))
    case Not(inner) => Obj(TwoFields(OpNot, "expression", Print(inner)))
    case All(parts) => Obj(TwoFields(OpAll, "expressions", Arr(PrintAll(parts))))
    case Any(parts) => Obj(TwoFields(OpAny, "expressions", Arr(PrintAll(parts))))
  }

  function PrintAll(parts: seq<Expr>): (r: seq<Value>)
    ensures |r| == |parts|
  {
    if parts == [] then [] else [Print(parts[0])] + PrintAll(parts[1..])
  }

  predicate WellFormed(e: Expr) {
    match e
    case Defined(key) => key != ""
    case Equals(key, _) => key != ""
    case Not(inner) => WellFormed(inner)
    case All(parts) => forall i :: 0 <= i < |parts| ==> WellFormed(parts[i])
    case Any(parts) => forall i :: 0 <= i < |parts| ==> WellFormed(parts[i])
  }

  // ---------------------------------------------------------------- the parser

  datatype Parse = Parse(expr: Expr, issues: seq<string>)

  /** `Object.keys`: some order of an object's own fields. */
  type Keys = map<string, Value> -> seq<string>

  ghost predicate Enumerates(keys: Keys) {
    forall fields, key :: key in keys(fields) <==> key in fields
  }

  const PLACEHOLDER: Expr := Defined("invalid")

  function ExtraMessage(path: string, key: string): string {
    path + " has unexpected field '" + key + "'"
  }

  /** One issue for each listed field that is not allowed, in order. */
  function ExtraIssues(listed: seq<string>, allowed: set<string>, path: string): seq<string> {
    if listed == [] then []
    else (if listed[0] in allowed then [] else [ExtraMessage(path, listed[0])]) + ExtraIssues(listed[1..], allowed, path)
  }

  function KeyOf(fields: map<string, Value>): Option<string> {
    var key := Get(fields, "key");
    if key.Str? && key.s != "" then Some(key.s) else None
  }

  function ItemPath(path: string, index: nat): string {
    path + ".expressions[" + Decimal(index) + "]"
  }

  /** The operator of a record, or the issue with it. */
  function OpOf(fields: map<string, Value>, path: string): Result<Op, string> {
    var op := Get(fields, "op");
    if !op.Str? || op.s == "" then Err(path + ".op is required")
    else if OpNamed(op.s).Some? then Ok(OpNamed(op.s).value)
    else Err(path + ".op must be defined, equals, not, all, or any")
  }

  function ParseExpression(keys: Keys, value: Value, path: string): Parse
    decreases value, 2, 0
  {
    if !value.Obj? then Parse(PLACEHOLDER, [path + " must be an object with an op property"])
    else
      match OpOf(value.fields, path)
      case Err(issue) => Parse(PLACEHOLDER, [issue])
      case Ok(op) =>
        var body := ParseBody(keys, value, op, path);
        Parse(body.expr, ExtraIssues(keys(value.fields), Allowed(op), path) + body.issues)
  }

  /** A record whose operator is known, apart from its unexpected fields. */
  function ParseBody(keys: Keys, value: Value, op: Op, path: string): Parse
    requires value.Obj?
    decreases value, 1, 0
  {
    var fields := value.fields;
    match op
    case OpDefined => DefinedLeaf(fields, path)
    case OpEquals => EqualsLeaf(fields, path)
    case OpNot =>
      if Get(fields, "expression") == Undefined then Parse(PLACEHOLDER, [path + ".expression is required"])
      else
        var inner := ParseExpression(keys, fields["expression"], path + ".expression");
        Parse(Not(inner.expr), inner.issues)
    case _ =>
      if !Get(fields, "expressions").Arr? then
        Parse(Group(op, []), [path + ".expressions must be an array"])
      else
        var parts := ParseItems(keys, fields["expressions"].items, path, 0);
        Parse(Group(op, parts.exprs), parts.issues)
  }

  function Group(op: Op, parts: seq<Expr>): Expr {
    if op == OpAll then All(parts) else Any(parts)
  }

  function DefinedLeaf(fields: map<string, Value>, path: string): Parse {
    match KeyOf(fields)
    case None => Parse(PLACEHOLDER, [path + ".key must be a non-empty string"])
    case Some(key) => Parse(Defined(key), [])
  }

  function EqualsLeaf(fields: map<string, Value>, path: string): Parse {
    match KeyOf(fields)
    case None => Parse(PLACEHOLDER, [path + ".key must be a non-empty string"])
    case Some(key) =>
      match ToContextValue(Get(fields, "value"))
      case None => Parse(Defined(key), [path + ".value must be a string, finite number, or boolean"])
      case Some(value) => Parse(Equals(key, value), [])
  }

  datatype Parses = Parses(exprs: seq<Expr>, issues: seq<string>)

  /** The items from `index` on. */
  function ParseItems(keys: Keys, items: seq<Value>, path: string, index: nat): Parses
    requires index <= |items|
    decreases items, 0, |items| - index
  {
    if index == |items| then Parses([], [])
    else
      var first := ParseExpression(keys, items[index], ItemPath(path, index));
      var rest := ParseItems(keys, items, path, index + 1);
      Parses([first.expr] + rest.exprs, first.issues + rest.issues)
  }

  // ---------------------------------------------------------------- exactly the grammar

  lemma {:induction false} NoExtra(listed: seq<string>, allowed: set<string>, path: string)
    ensures ExtraIssues(listed, allowed, path) == [] <==> forall key :: key in listed ==> key in allowed
  {
    if listed != [] {
      NoExtra(listed[1..], allowed, path);
      assert listed == [listed[0]] + listed[1..];
    }
  }

  lemma TwoFieldsUnique(op: Op, name: string, fields: map<string, Value>)
    requires name != "op" && fields.Keys <= {"op", name}
    requires Get(fields, "op") == Str(OpName(op)) && Get(fields, name) != Undefined
    ensures fields == TwoFields(op, name, fields[name])
  {}

  lemma EqualsFieldsUnique(fields: map<string, Value>)
    requires fields.Keys <= {"op", "key", "value"}
    requires Get(fields, "op") == Str(OpName(OpEquals)) && Get(fields, "key").Str? && Get(fields, "value") != Undefined
    ensures fields == EqualsFields(fields["key"].s, fields["value"])
  {}

  /** A value parsed without issues is the printed form of a well-formed result. */
  lemma {:induction false} ParseSound(keys: Keys, value: Value, path: string)
    requires Enumerates(keys) && ParseExpression(keys, value, path).issues == []
    ensures WellFormed(ParseExpression(keys, value, path).expr) && Print(ParseExpression(keys, value, path).expr) == value
    decreases value, 1, 0
  {
    var fields := value.fields;
    var op := OpOf(fields, path).value;
    NoExtra(keys(fields), Allowed(op), path);
    assert forall key :: key in fields ==> key in keys(fields);
    match op
    case OpDefined => TwoFieldsUnique(op, "key", fields);
    case OpEquals => EqualsFieldsUnique(fields);
    case OpNot =>
      ParseSound(keys, fields["expression"], path + ".expression");
      TwoFieldsUnique(op, "expression", fields);
    case _ =>
      var items := fields["expressions"].items;
      ItemsSound(keys, items, path, 0);
      assert items[0..] == items;
      TwoFieldsUnique(op, "expressions", fields);
  }

  lemma {:induction false} ItemsSound(keys: Keys, items: seq<Value>, path: string, index: nat)
    requires Enumerates(keys) && index <= |items| && ParseItems(keys, items, path, index).issues == []
    ensures
      var r := ParseItems(keys, items, path, index).exprs;
      (forall i :: 0 <= i < |r| ==> WellFormed(r[i])) && PrintAll(r) == items[index..]
    decreases items, 0, |items| - index
  {
    if index < |items| {
      ParseSound(keys, items[index], ItemPath(path, index));
      ItemsSound(keys, items, path, index + 1);
      PrintCons(ParseExpression(keys, items[index], ItemPath(path, index)).expr, ParseItems(keys, items, path, index + 1).exprs);
      DropStep(items, index);
    }
  }

  lemma PrintCons(first: Expr, rest: seq<Expr>)
    ensures PrintAll([first] + rest) == [Print(first)] + PrintAll(rest)
  {
    assert ([first] + rest)[1..] == rest;
  }

  /** Printing a well-formed expression and parsing it is the identity, without issues. */
  lemma {:induction false} ParseComplete(keys: Keys, e: Expr, path: string)
    requires Enumerates(keys) && WellFormed(e)
    ensures ParseExpression(keys, Print(e), path) == Parse(e, [])
    decreases e, 2, 0
  {
    PrintedOp(e, path);
    NoExtra(keys(Print(e).fields), Allowed(OpFor(e)), path);
    BodyComplete(keys, e, path);
  }

  lemma {:induction false} BodyComplete(keys: Keys, e: Expr, path: string)
    requires Enumerates(keys) && WellFormed(e)
    ensures ParseBody(keys, Print(e), OpFor(e), path) == Parse(e, [])
    decreases e, 1, 0
  {
    match e
    case Defined(_) => LeafComplete(keys, e, path);
    case Equals(_, _) => LeafComplete(keys, e, path);
    case Not(inner) => ParseComplete(keys, inner, path + ".expression");
    case All(parts) => GroupComplete(keys, OpAll, parts, path);
    case Any(parts) => GroupComplete(keys, OpAny, parts, path);
  }

  lemma LeafComplete(keys: Keys, e: Expr, path: string)
    requires WellFormed(e) && (e.Defined? || e.Equals?)
    ensures ParseBody(keys, Print(e), OpFor(e), path) == Parse(e, [])
  {
    assert KeyOf(Print(e).fields) == Some(e.key);
  }

  lemma {:induction false} GroupComplete(keys: Keys, op: Op, parts: seq<Expr>, path: string)
    requires Enumerates(keys) && (op == OpAll || op == OpAny)
    requires forall i :: 0 <= i < |parts| ==> WellFormed(parts[i])
    ensures ParseBody(keys, Obj(TwoFields(op, "expressions", Arr(PrintAll(parts)))), op, path) == Parse(Group(op, parts), [])
    decreases parts, 1, 0
  {
    ItemsComplete(keys, parts, path, 0);
    assert parts[0..] == parts;
  }

  function OpFor(e: Expr): Op {
    match e
    case Defined(_) => OpDefined
    case Equals(_, _) => OpEquals
    case Not(_) => OpNot
    case All(_) => OpAll
    case Any(_) => OpAny
  }

  lemma PrintedOp(e: Expr, path: string)
    ensures Print(e).fields.Keys == Allowed(OpFor(e)) && OpOf(Print(e).fields, path) == Ok(OpFor(e))
  {
    OpNames(OpFor(e));
  }

  lemma {:induction false} PrintAllAt(parts: seq<Expr>, i: nat)
    requires i < |parts|
    ensures PrintAll(parts)[i] == Print(parts[i])
  {
    if i > 0 {
      PrintAllAt(parts[1..], i - 1);
    }
  }

  lemma {:induction false} ItemsComplete(keys: Keys, parts: seq<Expr>, path: string, index: nat)
    requires Enumerates(keys) && index <= |parts| && forall i :: 0 <= i < |parts| ==> WellFormed(parts[i])
    ensures ParseItems(keys, PrintAll(parts), path, index) == Parses(parts[index..], [])
    decreases parts, 0, |parts| - index
  {
    if index < |parts| {
      PrintAllAt(parts, index);
      ParseComplete(keys, parts[index], ItemPath(path, index));
      ItemsComplete(keys, parts, path, index + 1);
      DropStep(parts, index);
    }
  }

  /** Issues name the place they are at: what is not an object, in a list of expressions or under a negation. */
  lemma {:induction false} IssuePlaces(keys: Keys, items: seq<Value>, path: string, index: nat)
    requires index <= |items| && forall item :: item in items ==> !item.Obj?
    ensures
      var issues := ParseItems(keys, items, path, index).issues;
      && |issues| == |items| - index
      && forall i :: index <= i < |items| ==>
           issues[i - index] == path + ".expressions[" + Decimal(i) + "]" + " must be an object with an op property"
    ensures items != [] ==>
              ParseBody(keys, Obj(TwoFields(OpNot, "expression", items[0])), OpNot, path).issues ==
              (if items[0] == Undefined then [path + ".expression is required"]
               else [path + ".expression" + " must be an object with an op property"])
    decreases |items| - index
  {
    if items != [] {
      assert items[0] in items;
    }
    if index < |items| {
      assert items[index] in items;
      IssuePlaces(keys, items, path, index + 1);
    }
  }

  /** The other issues, each with its place and what was expected there. */
  lemma IssueTexts(keys: Keys, fields: map<string, Value>, path: string, key: string)
    ensures ExtraIssues([key], {}, path) == [path + " has unexpected field '" + key + "'"]
    ensures "op" !in fields ==> ParseExpression(keys, Obj(fields), path).issues == [path + ".op is required"]
    ensures "op" in fields && fields["op"].Str? && fields["op"].s !in ["", "defined", "equals", "not", "all", "any"] ==>
              ParseExpression(keys, Obj(fields), path).issues == [path + ".op must be defined, equals, not, all, or any"]
    ensures "key" !in fields ==>
              DefinedLeaf(fields, path).issues == EqualsLeaf(fields, path).issues == [path + ".key must be a non-empty string"]
    ensures "expressions" !in fields ==>
              ParseBody(keys, Obj(fields), OpAll, path).issues == [path + ".expressions must be an array"]
    ensures "key" in fields && fields["key"].Str? && fields["key"].s != "" && "value" !in fields ==>
              EqualsLeaf(fields, path).issues == [path + ".value must be a string, finite number, or boolean"]
  {
    var names := ["", "defined", "equals", "not", "all", "any"];
    assert names[0] == "" && names[1] == "defined" && names[2] == "equals" && names[3] == "not" && names[4] == "all" && names[5] == "any";
    assert [key][1..] == [];
  }

  // ---------------------------------------------------------------- the imperative parser

  class IssueList {
    var items: seq<string>

    constructor ()
      ensures items == []
    {
      items := [];
    }

    method Push(issue: string)
      modifies this
      ensures items == old(items) + [issue]
    {
      items := items + [issue];
    }
  }

  method CheckNoExtraFields(keys: Keys, fields: map<string, Value>, allowed: set<string>, path: string, issues: IssueList)
    modifies issues
    ensures issues.items == old(issues.items) + ExtraIssues(keys(fields), allowed, path)
  {
    var listed := keys(fields);
    assert listed[0..] == listed;
    for i := 0 to |listed|
      invariant issues.items + ExtraIssues(listed[i..], allowed, path) == old(issues.items) + ExtraIssues(listed, allowed, path)
    {
      assert listed[i..][1..] == listed[i + 1..];
      if listed[i] !in allowed {
        issues.Push(ExtraMessage(path, listed[i]));
      }
    }
  }

  method ParseInto(keys: Keys, value: Value, path: string, issues: IssueList) returns (e: Expr)
    modifies issues
    ensures e == ParseExpression(keys, value, path).expr
    ensures issues.items == old(issues.items) + ParseExpression(keys, value, path).issues
    decreases value, 1
  {
    if !value.Obj? {
      issues.Push(path + " must be an object with an op property");
      return PLACEHOLDER;
    }
    var fields := value.fields;
    var op := OpOf(fields, path);
    if op.Err? {
      issues.Push(op.error);
      return PLACEHOLDER;
    }
    CheckNoExtraFields(keys, fields, Allowed(op.value), path, issues);
    e := ParseBodyInto(keys, value, op.value, path, issues);
    RecordIssues(keys, value, op.value, path, old(issues.items));
  }

  /** The issues of a record: first its unexpected fields, then its body. */
  lemma RecordIssues(keys: Keys, value: Value, op: Op, path: string, before: seq<string>)
    requires value.Obj? && OpOf(value.fields, path) == Ok(op)
    ensures
      var extra, body := ExtraIssues(keys(value.fields), Allowed(op), path), ParseBody(keys, value, op, path);
      && ParseExpression(keys, value, path).expr == body.expr
      && before + extra + body.issues == before + ParseExpression(keys, value, path).issues
  {
    Assoc(before, ExtraIssues(keys(value.fields), Allowed(op), path), ParseBody(keys, value, op, path).issues);
  }

  method ParseBodyInto(keys: Keys, value: Value, op: Op, path: string, issues: IssueList) returns (e: Expr)
    requires value.Obj?
    modifies issues
    ensures e == ParseBody(keys, value, op, path).expr
    ensures issues.items == old(issues.items) + ParseBody(keys, value, op, path).issues
    decreases value, 0
  {
    var fields := value.fields;
    match op {
      case OpDefined => e := ParseDefined(fields, path, issues);
      case OpEquals => e := ParseEquals(fields, path, issues);
      case OpNot =>
        if Get(fields, "expression") == Undefined {
          issues.Push(path + ".expression is required");
          return PLACEHOLDER;
        }
        var inner := ParseInto(keys, fields["expression"], path + ".expression", issues);
        e := Not(inner);
      case _ =>
        if !Get(fields, "expressions").Arr? {
          issues.Push(path + ".expressions must be an array");
          return Group(op, []);
        }
        var parts := ParseItemsInto(keys, fields["expressions"].items, path, issues);
        e := Group(op, parts);
    }
  }

  method ParseItemsInto(keys: Keys, items: seq<Value>, path: string, issues: IssueList) returns (parts: seq<Expr>)
    modifies issues
    ensures parts == ParseItems(keys, items, path, 0).exprs
    ensures issues.items == old(issues.items) + ParseItems(keys, items, path, 0).issues
    decreases items
  {
    parts := [];
    ghost var all := Parses(ParseItems(keys, items, path, 0).exprs, old(issues.items) + ParseItems(keys, items, path, 0).issues);
    for i := 0 to |items|
      invariant After(Parses(parts, issues.items), ParseItems(keys, items, path, i)) == all
    {
      ghost var before := Parses(parts, issues.items);
      var part := ParseInto(keys, items[i], ItemPath(path, i), issues);
      parts := parts + [part];
      ItemsStep(keys, items, path, i, before, Parses(parts, issues.items));
    }
  }

  ghost function After(done: Parses, rest: Parses): Parses {
    Parses(done.exprs + rest.exprs, done.issues + rest.issues)
  }

  lemma ItemsStep(keys: Keys, items: seq<Value>, path: string, i: nat, before: Parses, after: Parses)
    requires i < |items|
    requires
      var first := ParseExpression(keys, items[i], ItemPath(path, i));
      after == Parses(before.exprs + [first.expr], before.issues + first.issues)
    ensures After(before, ParseItems(keys, items, path, i)) == After(after, ParseItems(keys, items, path, i + 1))
  {
    var first, rest := ParseExpression(keys, items[i], ItemPath(path, i)), ParseItems(keys, items, path, i + 1);
    Assoc(before.exprs, [first.expr], rest.exprs);
    Assoc(before.issues, first.issues, rest.issues);
  }

  method ParseDefined(fields: map<string, Value>, path: string, issues: IssueList) returns (e: Expr)
    modifies issues
    ensures e == DefinedLeaf(fields, path).expr
    ensures issues.items == old(issues.items) + DefinedLeaf(fields, path).issues
  {
    var key := KeyOf(fields);
    if key.None? {
      issues.Push(path + ".key must be a non-empty string");
      return PLACEHOLDER;
    }
    return Defined(key.value);
  }

  method ParseEquals(fields: map<string, Value>, path: string, issues: IssueList) returns (e: Expr)
    modifies issues
    ensures e == EqualsLeaf(fields, path).expr
    ensures issues.items == old(issues.items) + EqualsLeaf(fields, path).issues
  {
    var key := KeyOf(fields);
    if key.None? {
      issues.Push(path + ".key must be a non-empty string");
      return PLACEHOLDER;
    }
    var value := ToContextValue(Get(fields, "value"));
    if value.None? {
      issues.Push(path + ".value must be a string, finite number, or boolean");
      return Defined(key.value);
    }
    return Equals(key.value, value.value);
  }

  /**
   The parser succeeds with an expression exactly when the value is the printed form of that
   expression and the expression is well-formed; so nothing is lost, nothing is invented, and a
   placeholder is never returned without an issue. A failure reports all issues in order.
   */
  method ParseContextExpression(keys: Keys, value: Value) returns (r: Result<Expr, seq<string>>)
    requires Enumerates(keys)
    ensures forall e :: r == Ok(e) <==> WellFormed(e) && Print(e) == value
    ensures r.Err? ==> r.error != [] && r.error == ParseExpression(keys, value, "when").issues
  {
    var issues := new IssueList();
    var result := ParseInto(keys, value, "when", issues);
    forall e | WellFormed(e) && Print(e) == value ensures ParseExpression(keys, value, "when") == Parse(e, []) {
      ParseComplete(keys, e, "when");
    }
    if |issues.items| > 0 {
      return Err(issues.items);
    }
    ParseSound(keys, value, "when");
    return Ok(result);
  }
}
