/** Evaluating context expressions, and collecting the keys their value can depend on. */
module ContextEvaluation {
  import opened Sorting
  import opened ContextExpression

  type Context = map<string, ContextValue>

  function Evaluate(e: Expr, context: Context): bool {
    match e
    case Defined(key) => key in context
    case Equals(key, value) => key in context && context[key] == value
    case Not(inner) => !Evaluate(inner, context)
    case All(parts) => forall i :: 0 <= i < |parts| ==> Evaluate(parts[i], context)
    case Any(parts) => exists i :: 0 <= i < |parts| && Evaluate(parts[i], context)
  }

  /** The key stands somewhere in the expression. */
  ghost predicate Occurs(key: string, e: Expr) {
    match e
    case Defined(k) => k == key
    case Equals(k, _) => k == key
    case Not(inner) => Occurs(key, inner)
    case All(parts) => exists i :: 0 <= i < |parts| && Occurs(key, parts[i])
    case Any(parts) => exists i :: 0 <= i < |parts| && Occurs(key, parts[i])
  }

  // ---------------------------------------------------------------- the collector

  function Add(keys: seq<string>, key: string): seq<string> {
    if key in keys then keys else keys + [key]
  }

  function CollectInto(e: Expr, keys: seq<string>): seq<string>
    decreases e, 1, 0
  {
    match e
    case Defined(key) => Add(keys, key)
    case Equals(key, _) => Add(keys, key)
    case Not(inner) => CollectInto(inner, keys)
    case All(parts) => CollectAll(parts, 0, keys)
    case Any(parts) => CollectAll(parts, 0, keys)
  }

  function CollectAll(parts: seq<Expr>, from: nat, keys: seq<string>): seq<string>
    requires from <= |parts|
    decreases parts, 0, |parts| - from
  {
    if from == |parts| then keys else CollectAll(parts, from + 1, CollectInto(parts[from], keys))
  }

  /** A set that remembers the order of insertion. */
  class KeySet {
    var keys: seq<string>

    constructor ()
      ensures keys == []
    {
      keys := [];
    }

    method Insert(key: string)
      modifies this
      ensures keys == Add(old(keys), key)
    {
      if key !in keys {
        keys := keys + [key];
      }
    }

    method Collect(e: Expr)
      modifies this
      ensures keys == CollectInto(e, old(keys))
      decreases e, 1
    {
      match e {
        case Defined(key) => Insert(key);
        case Equals(key, _) => Insert(key);
        case Not(inner) => Collect(inner);
        case All(parts) => CollectEach(parts);
        case Any(parts) => CollectEach(parts);
      }
    }

    method CollectEach(parts: seq<Expr>)
      modifies this
      ensures keys == CollectAll(parts, 0, old(keys))
      decreases parts, 0
    {
      for i := 0 to |parts|
        invariant CollectAll(parts, i, keys) == CollectAll(parts, 0, old(keys))
      {
        Collect(parts[i]);
      }
    }
  }

  lemma {:induction false} CollectShape(e: Expr, keys: seq<string>, key: string)
    ensures Distinct(keys) ==> Distinct(CollectInto(e, keys))
    ensures key in CollectInto(e, keys) <==> key in keys || Occurs(key, e)
    decreases e, 1, 0
  {
    match e
    case Defined(_) =>
    case Equals(_, _) =>
    case Not(inner) => CollectShape(inner, keys, key);
    case All(parts) => CollectAllShape(parts, 0, keys, key);
    case Any(parts) => CollectAllShape(parts, 0, keys, key);
  }

  lemma {:induction false} CollectAllShape(parts: seq<Expr>, from: nat, keys: seq<string>, key: string)
    requires from <= |parts|
    ensures Distinct(keys) ==> Distinct(CollectAll(parts, from, keys))
    ensures key in CollectAll(parts, from, keys) <==> key in keys || exists i :: from <= i < |parts| && Occurs(key, parts[i])
    decreases parts, 0, |parts| - from
  {
    if from < |parts| {
      CollectShape(parts[from], keys, key);
      CollectAllShape(parts, from + 1, CollectInto(parts[from], keys), key);
    }
  }

  /** The collector returns exactly the keys that occur, each once. */
  method CollectKeys(e: Expr) returns (keys: seq<string>)
    ensures keys == CollectInto(e, [])
    ensures Distinct(keys)
    ensures forall key :: key in keys <==> Occurs(key, e)
  {
    var collected := new KeySet();
    collected.Collect(e);
    keys := collected.keys;
    CollectShape(e, [], "");
    forall key ensures key in keys <==> Occurs(key, e) {
      CollectShape(e, [], key);
    }
  }

  // ---------------------------------------------------------------- the collected keys suffice

  /** The contexts agree on whether the key is present and on its value. */
  predicate AgreeOn(key: string, a: Context, b: Context) {
    (key in a <==> key in b) && (key in a ==> a[key] == b[key])
  }

  lemma {:induction false} EvaluateAgrees(e: Expr, a: Context, b: Context)
    requires forall key :: Occurs(key, e) ==> AgreeOn(key, a, b)
    ensures Evaluate(e, a) == Evaluate(e, b)
    decreases e, 1
  {
    match e
    case Defined(key) => assert Occurs(key, e);
    case Equals(key, _) => assert Occurs(key, e);
    case Not(inner) =>
      assert forall key :: Occurs(key, inner) ==> Occurs(key, e);
      EvaluateAgrees(inner, a, b);
    case All(parts) => PartsAgree(parts, e, a, b);
    case Any(parts) => PartsAgree(parts, e, a, b);
  }

  lemma {:induction false} PartsAgree(parts: seq<Expr>, e: Expr, a: Context, b: Context)
    requires e == All(parts) || e == Any(parts)
    requires forall key :: Occurs(key, e) ==> AgreeOn(key, a, b)
    ensures forall i :: 0 <= i < |parts| ==> Evaluate(parts[i], a) == Evaluate(parts[i], b)
    decreases e, 0
  {
    forall i | 0 <= i < |parts| ensures Evaluate(parts[i], a) == Evaluate(parts[i], b) {
      assert forall key :: Occurs(key, parts[i]) ==> Occurs(key, e);
      EvaluateAgrees(parts[i], a, b);
    }
  }

  /** Contexts that agree on the collected keys give every expression the same value. */
  lemma CollectedKeysSuffice(e: Expr, a: Context, b: Context)
    requires forall key :: key in CollectInto(e, []) ==> AgreeOn(key, a, b)
    ensures Evaluate(e, a) == Evaluate(e, b)
  {
    forall key | Occurs(key, e) ensures AgreeOn(key, a, b) {
      CollectShape(e, [], key);
    }
    EvaluateAgrees(e, a, b);
  }

  // ---------------------------------------------------------------- laws that fix the evaluator

  /** A key is defined exactly while it has a value, and equals exactly the value it has. */
  lemma LeafLaws(key: string, value: ContextValue, other: ContextValue, context: Context)
    ensures Evaluate(Defined(key), context[key := value]) && !Evaluate(Defined(key), context - {key})
    ensures Evaluate(Equals(key, other), context[key := value]) <==> other == value
    ensures Evaluate(Equals(key, other), context) ==> Evaluate(Defined(key), context)
  {}

  /** Every group decides part by part: an empty `all` holds, an empty `any` does not, ... */
  lemma GroupBase(e: Expr, context: Context)
    ensures Evaluate(All([]), context) && !Evaluate(Any([]), context)
    ensures Evaluate(All([e]), context) == Evaluate(Any([e]), context) == Evaluate(e, context)
  {
    assert [e][0] == e;
    if Evaluate(All([e]), context) { assert Evaluate([e][0], context); }
    if Evaluate(e, context) { assert Evaluate([e][0], context); }
  }

  /** ... and groups put together hold together, or one of them does. */
  lemma GroupConcat(a: seq<Expr>, b: seq<Expr>, context: Context)
    ensures Evaluate(All(a + b), context) <==> Evaluate(All(a), context) && Evaluate(All(b), context)
    ensures Evaluate(Any(a + b), context) <==> Evaluate(Any(a), context) || Evaluate(Any(b), context)
  {
    var both := a + b;
    assert forall i :: 0 <= i < |a| ==> both[i] == a[i];
    assert forall i :: 0 <= i < |b| ==> both[|a| + i] == b[i];
    if Evaluate(All(both), context) {
      forall i | 0 <= i < |b| ensures Evaluate(b[i], context) { assert Evaluate(both[|a| + i], context); }
    }
    if Evaluate(Any(b), context) {
      var i :| 0 <= i < |b| && Evaluate(b[i], context);
      assert Evaluate(both[|a| + i], context);
    }
  }

  ghost function Negated(parts: seq<Expr>): (r: seq<Expr>)
    ensures |r| == |parts|
  {
    seq(|parts|, i requires 0 <= i < |parts| => Not(parts[i]))
  }

  /** Negation turns one kind of group into the other, and a defined key into one that is not. */
  lemma NegationLaws(parts: seq<Expr>, key: string, value: ContextValue, context: Context)
    ensures Evaluate(Not(All(parts)), context) <==> Evaluate(Any(Negated(parts)), context)
    ensures Evaluate(Not(Any(parts)), context) <==> Evaluate(All(Negated(parts)), context)
    ensures !Evaluate(Not(Defined(key)), context[key := value]) && Evaluate(Not(Defined(key)), context - {key})
  {
    assert forall i :: 0 <= i < |parts| ==> (Evaluate(Negated(parts)[i], context) <==> !Evaluate(parts[i], context));
  }
}
