/** Parsing service routing documents, and what a document that parses is known to satisfy. */
module RoutingDocument {
  import opened Text
  import opened Json
  import opened RoutingKeys

  datatype Rule = Rule(allowFallback: bool, providerKey: string, scope: Scope, serviceId: string, version: nat)

  datatype Document = Document(revision: nat, rules: seq<Rule>, updatedAt: string)

  // ---------------------------------------------------------------- scalars

  function ParseText(value: Value, name: string): Result<string, string> {
    if !value.Str? || Trim(value.s) == "" then Err(name + " must be a non-empty string")
    else Ok(Trim(value.s))
  }

  predicate IsIdLetter(c: char) {
    'a' <= c <= 'z' || '0' <= c <= '9'
  }

  /** Runs of letters and digits, separated by single dots, underscores or hyphens. */
  predicate IsServiceId(s: string) {
    && s != ""
    && IsIdLetter(s[0])
    && IsIdLetter(s[|s| - 1])
    && (forall i :: 0 <= i < |s| ==> IsIdLetter(s[i]) || s[i] in "._-")
    && (forall i :: 0 < i < |s| ==> IsIdLetter(s[i - 1]) || IsIdLetter(s[i]))
  }

  function ParseServiceId(value: Value, name: string): Result<string, string> {
    match ParseText(value, name)
    case Err(e) => Err(e)
    case Ok(id) => if IsServiceId(id) then Ok(id) else Err(name + " is invalid")
  }

  const MAX_SAFE_INTEGER: nat := 0x1F_FFFF_FFFF_FFFF

  function ParseRevision(value: Value, name: string, least: nat): (r: Result<nat, string>)
    requires least <= 1
  {
    if value.Finite? && value.n.Floor as real == value.n && least <= value.n.Floor <= MAX_SAFE_INTEGER then
      Ok(value.n.Floor)
    else
      Err(name + " must be a " + (if least == 0 then "non-negative" else "positive") + " safe integer")
  }

  // ---------------------------------------------------------------- scopes

  function ParseFields(raw: map<string, Value>, from: nat): Result<Scope, string>
    decreases |SCOPE_FIELDS| - from
  {
    if from >= |SCOPE_FIELDS| then Ok(map[])
    else
      var f := SCOPE_FIELDS[from];
      var value := Get(raw, Name(f));
      if value == Undefined then ParseFields(raw, from + 1)
      else
        match ParseText(value, "scope." + Name(f))
        case Err(e) => Err(e)
        case Ok(text) =>
          match ParseFields(raw, from + 1)
          case Err(e) => Err(e)
          case Ok(scope) => Ok(scope[f := text])
  }

  function ParseContext(value: Value, allowEmpty: bool): Result<Scope, string> {
    if !value.Obj? then Err("Service routing context must be an object")
    else
      match ParseFields(value.fields, 0)
      case Err(e) => Err(e)
      case Ok(scope) =>
        if !allowEmpty && scope == map[] then Err("Service routing scope must select at least one context dimension")
        else Ok(scope)
  }

  // ---------------------------------------------------------------- rules and documents

  function ParseRule(value: Value): Result<Rule, string> {
    if !value.Obj? then Err("Service routing rule must be an object")
    else
      var fallback := Get(value.fields, "allowFallback");
      if !fallback.Bool? then Err("Service routing rule allowFallback must be boolean")
      else
        match ParseText(Get(value.fields, "providerKey"), "providerKey")
        case Err(e) => Err(e)
        case Ok(providerKey) =>
          match ParseContext(Get(value.fields, "scope"), false)
          case Err(e) => Err(e)
          case Ok(scope) =>
            match ParseServiceId(Get(value.fields, "serviceId"), "serviceId")
            case Err(e) => Err(e)
            case Ok(serviceId) =>
              match ParseRevision(Get(value.fields, "version"), "version", 1)
              case Err(e) => Err(e)
              case Ok(version) => Ok(Rule(fallback.b, providerKey, scope, serviceId, version))
  }

  function ParseRules(items: seq<Value>): Result<seq<Rule>, string> {
    if items == [] then Ok([])
    else
      match ParseRule(items[0])
      case Err(e) => Err(e)
      case Ok(rule) =>
        match ParseRules(items[1..])
        case Err(e) => Err(e)
        case Ok(rules) => Ok([rule] + rules)
  }

  function RuleKey(rule: Rule): string {
    rule.serviceId + "@" + Decimal(rule.version) + "\0" + ScopeKey(rule.scope)
  }

  function RuleKeys(rules: seq<Rule>): (keys: seq<string>)
    ensures |keys| == |rules|
    ensures forall i :: 0 <= i < |rules| ==> keys[i] == RuleKey(rules[i])
  {
    seq(|rules|, i requires 0 <= i < |rules| => RuleKey(rules[i]))
  }

  /** `isTimestamp` stands for `Date.parse` giving a finite number. */
  function ParseDocument(value: Value, isTimestamp: string -> bool): Result<Document, string> {
    if !value.Obj? then Err("Service routing document must be an object")
    else if Get(value.fields, "schemaVersion") != Finite(1.0) then Err("Service routing schemaVersion is unsupported")
    else if !Get(value.fields, "rules").Arr? then Err("Service routing rules must be an array")
    else
      match ParseRules(Get(value.fields, "rules").items)
      case Err(e) => Err(e)
      case Ok(rules) =>
        var keys := RuleKeys(rules);
        if |set k | k in keys| != |keys| then Err("Service routing rule identities must be unique")
        else
          match ParseText(Get(value.fields, "updatedAt"), "updatedAt")
          case Err(e) => Err(e)
          case Ok(updatedAt) =>
            if !isTimestamp(updatedAt) then Err("updatedAt must be an ISO timestamp")
            else
              match ParseRevision(Get(value.fields, "revision"), "revision", 0)
              case Err(e) => Err(e)
              case Ok(revision) => Ok(Document(revision, rules, updatedAt))
  }

  // ---------------------------------------------------------------- what parsing establishes

  /** The object selects exactly the dimensions of the scope, each with a text that trims to its value. */
  ghost predicate ReadsAs(value: Value, scope: Scope) {
    && value.Obj?
    && (forall f :: f !in scope ==> Get(value.fields, Name(f)) == Undefined)
    && (forall f :: f in scope ==> ReadsField(Get(value.fields, Name(f)), scope[f]))
  }

  ghost predicate ReadsField(value: Value, text: string) {
    value.Str? && text != "" && Trim(value.s) == text
  }

  /** `ReadsAs`, for the dimensions from the given place on. */
  ghost predicate ReadsFrom(raw: map<string, Value>, from: nat, scope: Scope) {
    && (forall f :: f in scope ==> Index(f) >= from && ReadsField(Get(raw, Name(f)), scope[f]))
    && (forall f :: f !in scope && Index(f) >= from ==> Get(raw, Name(f)) == Undefined)
  }

  ghost predicate BadField(value: Value) {
    value != Undefined && (!value.Str? || Trim(value.s) == "")
  }

  lemma OneField(f: Field, g: Field)
    requires Index(f) == Index(g)
    ensures f == g
  {}

  lemma {:induction false} FieldsParse(raw: map<string, Value>, from: nat)
    ensures
      match ParseFields(raw, from)
      case Ok(scope) => ReadsFrom(raw, from, scope)
      case Err(_) => exists f :: BadField(Get(raw, Name(f)))
    decreases |SCOPE_FIELDS| - from
  {
    if from < |SCOPE_FIELDS| {
      FieldsParse(raw, from + 1);
      var value := Get(raw, Name(SCOPE_FIELDS[from]));
      if !BadField(value) && ParseFields(raw, from + 1).Ok? {
        FieldsStep(raw, from, ParseFields(raw, from + 1).value);
      }
    }
  }

  lemma FieldsStep(raw: map<string, Value>, from: nat, rest: Scope)
    requires from < |SCOPE_FIELDS| && ParseFields(raw, from + 1) == Ok(rest) && ReadsFrom(raw, from + 1, rest)
    requires !BadField(Get(raw, Name(SCOPE_FIELDS[from])))
    ensures ParseFields(raw, from).Ok? && ReadsFrom(raw, from, ParseFields(raw, from).value)
  {
    var f := SCOPE_FIELDS[from];
    IndexAt(from);
    var value := Get(raw, Name(f));
    if value == Undefined {
      FieldAbsent(raw, f, rest);
    } else {
      FieldPresent(raw, f, rest, Trim(value.s));
    }
  }

  lemma FieldAbsent(raw: map<string, Value>, f: Field, rest: Scope)
    requires ReadsFrom(raw, Index(f) + 1, rest) && Get(raw, Name(f)) == Undefined
    ensures ReadsFrom(raw, Index(f), rest)
  {
    forall g | g !in rest && Index(g) >= Index(f) ensures Get(raw, Name(g)) == Undefined {
      if Index(g) == Index(f) { OneField(f, g); }
    }
  }

  lemma FieldPresent(raw: map<string, Value>, f: Field, rest: Scope, text: string)
    requires ReadsFrom(raw, Index(f) + 1, rest) && ReadsField(Get(raw, Name(f)), text)
    ensures ReadsFrom(raw, Index(f), rest[f := text])
  {
    forall g | g !in rest[f := text] && Index(g) >= Index(f) ensures Get(raw, Name(g)) == Undefined {
      if Index(g) == Index(f) { OneField(f, g); }
    }
  }

  /** A context parses, and to which scope, exactly as its selected dimensions read. */
  lemma ContextParses(value: Value, allowEmpty: bool, scope: Scope)
    ensures ParseContext(value, allowEmpty) == Ok(scope) <==> ReadsAs(value, scope) && (allowEmpty || scope != map[])
  {
    if value.Obj? {
      FieldsParse(value.fields, 0);
      var parsed := ParseFields(value.fields, 0);
      if ReadsAs(value, scope) {
        assert parsed.Ok? by {
          forall f ensures !BadField(Get(value.fields, Name(f))) {
            assert f in scope ==> ReadsField(Get(value.fields, Name(f)), scope[f]);
          }
        }
        SameReading(value.fields, parsed.value, scope);
      }
    }
  }

  lemma SameReading(raw: map<string, Value>, a: Scope, b: Scope)
    requires ReadsFrom(raw, 0, a) && ReadsAs(Obj(raw), b)
    ensures a == b
  {
    forall f ensures (f in a <==> f in b) && (f in a ==> a[f] == b[f]) {
      assert f in b ==> ReadsField(Get(raw, Name(f)), b[f]);
      assert f in a ==> ReadsField(Get(raw, Name(f)), a[f]);
    }
  }

  /** A scope as the parser leaves it. */
  predicate NormalScope(scope: Scope) {
    scope != map[] && forall f :: f in scope ==> scope[f] != "" && Trimmed(scope[f])
  }

  predicate NormalRule(rule: Rule) {
    && NormalScope(rule.scope)
    && rule.providerKey != "" && Trimmed(rule.providerKey)
    && IsServiceId(rule.serviceId)
    && 1 <= rule.version <= MAX_SAFE_INTEGER
  }

  lemma ParsedText(value: Value, name: string)
    ensures ParseText(value, name).Ok? ==> ParseText(value, name).value != "" && Trimmed(ParseText(value, name).value)
  {
    if value.Str? {
      TrimIsTrimmed(value.s);
    }
  }

  lemma ParsedScope(value: Value, allowEmpty: bool)
    ensures
      var r := ParseContext(value, allowEmpty);
      r.Ok? ==> NonEmptyValues(r.value) && (!allowEmpty ==> NormalScope(r.value))
  {
    var r := ParseContext(value, allowEmpty);
    if r.Ok? {
      ContextParses(value, allowEmpty, r.value);
      forall f | f in r.value ensures r.value[f] != "" && Trimmed(r.value[f]) {
        assert ReadsField(Get(value.fields, Name(f)), r.value[f]);
        ParsedText(Get(value.fields, Name(f)), "");
      }
    }
  }

  lemma ParsedRule(value: Value)
    ensures ParseRule(value).Ok? ==> NormalRule(ParseRule(value).value)
  {
    if value.Obj? {
      ParsedText(Get(value.fields, "providerKey"), "providerKey");
      ParsedScope(Get(value.fields, "scope"), false);
    }
  }

  lemma {:induction false} ParsedRules(items: seq<Value>)
    ensures ParseRules(items).Ok? ==> forall rule :: rule in ParseRules(items).value ==> NormalRule(rule)
  {
    if items != [] {
      ParsedRule(items[0]);
      ParsedRules(items[1..]);
    }
  }

  /** Re-reading a parsed scope, as the key functions do, changes nothing. */
  function ScopeValue(scope: Scope): Value {
    Obj(map name | name in FieldNames(scope, 0) :: Str(scope[FieldNames(scope, 0)[name]]))
  }

  function FieldNames(scope: Scope, from: nat): (r: map<string, Field>)
    ensures forall name :: name in r ==> r[name] in scope && Name(r[name]) == name
    decreases |SCOPE_FIELDS| - from
  {
    if from >= |SCOPE_FIELDS| then map[]
    else
      var f := SCOPE_FIELDS[from];
      var rest := FieldNames(scope, from + 1);
      if f in scope then rest[Name(f) := f] else rest
  }

  lemma {:induction false} FieldNamesComplete(scope: Scope, from: nat, f: Field)
    requires f in scope && Index(f) >= from
    ensures Name(f) in FieldNames(scope, from)
    decreases |SCOPE_FIELDS| - from
  {
    if Index(f) > from {
      FieldNamesComplete(scope, from + 1, f);
    }
  }

  lemma ScopeReparses(scope: Scope)
    requires NormalScope(scope)
    ensures ParseContext(ScopeValue(scope), false) == Ok(scope)
  {
    var names := FieldNames(scope, 0);
    forall f ensures Get(ScopeValue(scope).fields, Name(f)) == if f in scope then Str(scope[f]) else Undefined {
      if f in scope {
        FieldNamesComplete(scope, 0, f);
      }
      if Name(f) in names {
        NameInjective(f, names[Name(f)]);
      }
    }
    forall f | f in scope ensures ReadsField(Get(ScopeValue(scope).fields, Name(f)), scope[f]) {
      TrimTrimmed(scope[f]);
    }
    ContextParses(ScopeValue(scope), false, scope);
  }

  // ---------------------------------------------------------------- identities

  predicate SameIdentity(a: Rule, b: Rule) {
    a.serviceId == b.serviceId && a.version == b.version && a.scope == b.scope
  }

  lemma KeyMarks(rule: Rule)
    requires NormalRule(rule)
    ensures '@' !in rule.serviceId && '\0' !in Decimal(rule.version)
  {}

  ghost function AfterServiceId(rule: Rule): string {
    Decimal(rule.version) + (['\0'] + ScopeKey(rule.scope))
  }

  lemma RuleKeySplit(rule: Rule)
    ensures RuleKey(rule) == rule.serviceId + (['@'] + AfterServiceId(rule))
  {
    JoinedKey(rule.serviceId, Decimal(rule.version), ScopeKey(rule.scope));
  }

  lemma JoinedKey(id: string, version: string, scope: string)
    ensures id + "@" + version + "\0" + scope == id + (['@'] + (version + (['\0'] + scope)))
  {}

  /** Rule keys tell parsed rules apart. */
  lemma RuleKeyInjective(a: Rule, b: Rule)
    requires NormalRule(a) && NormalRule(b)
    ensures RuleKey(a) == RuleKey(b) <==> SameIdentity(a, b)
  {
    if RuleKey(a) == RuleKey(b) {
      KeyMarks(a);
      KeyMarks(b);
      RuleKeySplit(a);
      RuleKeySplit(b);
      BeforeMark(a.serviceId, b.serviceId, '@', AfterServiceId(a), AfterServiceId(b));
      BeforeMark(Decimal(a.version), Decimal(b.version), '\0', ScopeKey(a.scope), ScopeKey(b.scope));
      DecimalInjective(a.version, b.version);
      ScopeKeyInjective(a.scope, b.scope);
    }
  }

  lemma {:induction false} DistinctCount(keys: seq<string>)
    ensures |set k | k in keys| <= |keys|
    ensures |set k | k in keys| == |keys| <==> forall i, j :: 0 <= i < j < |keys| ==> keys[i] != keys[j]
  {
    var all := set k | k in keys;
    if keys == [] {
      assert all == {};
    } else {
      var last, front := keys[|keys| - 1], keys[..|keys| - 1];
      var before := set k | k in front;
      DistinctCount(front);
      assert all == before + {last};
      if last in before {
        assert all == before;
        var i :| 0 <= i < |front| && front[i] == last;
        assert keys[i] == keys[|keys| - 1];
      } else {
        assert |all| == |before| + 1;
        assert forall i, j :: 0 <= i < j < |keys| ==> (keys[i] != keys[j] <==> j == |keys| - 1 || front[i] != front[j]);
      }
    }
  }

  ghost predicate DistinctIdentities(rules: seq<Rule>) {
    forall i, j :: 0 <= i < j < |rules| ==> !SameIdentity(rules[i], rules[j])
  }

  /** The text comparison of keys rejects exactly the documents in which two rules share an identity. */
  lemma KeysDistinct(rules: seq<Rule>)
    requires forall i :: 0 <= i < |rules| ==> NormalRule(rules[i])
    ensures
      var keys := RuleKeys(rules);
      |set k | k in keys| == |keys| <==> DistinctIdentities(rules)
  {
    var keys := RuleKeys(rules);
    DistinctCount(keys);
    forall i, j | 0 <= i < j < |rules| ensures keys[i] == keys[j] <==> SameIdentity(rules[i], rules[j]) {
      RuleKeyInjective(rules[i], rules[j]);
    }
  }

  ghost predicate ValidRules(rules: seq<Rule>) {
    && (forall i :: 0 <= i < |rules| ==> NormalRule(rules[i]))
    && DistinctIdentities(rules)
  }

  /** Every accepted document consists of normalised rules with distinct identities. */
  lemma ParsedDocument(value: Value, isTimestamp: string -> bool)
    ensures ParseDocument(value, isTimestamp).Ok? ==> ValidRules(ParseDocument(value, isTimestamp).value.rules)
  {
    if ParseDocument(value, isTimestamp).Ok? {
      var items := Get(value.fields, "rules").items;
      ParsedRules(items);
      KeysDistinct(ParseRules(items).value);
    }
  }

  // ---------------------------------------------------------------- what the fields of a value say

  /** A value that is the natural number, for a safe integer. */
  ghost predicate ReadsNumber(value: Value, n: nat) {
    value == Finite(n as real) && n < 0x20_0000_0000_0000
  }

  lemma RevisionParses(value: Value, name: string, least: nat, n: nat)
    requires least <= 1
    ensures ParseRevision(value, name, least) == Ok(n) <==> ReadsNumber(value, n) && n >= least
  {
    if value.Finite? {
      assert (n as real).Floor == n;
    }
  }

  lemma TextParses(value: Value, name: string, text: string)
    ensures ParseText(value, name) == Ok(text) <==> ReadsField(value, text)
  {}

  /** Each field of the rule is read from the property of its own name. */
  ghost predicate ReadsRule(value: Value, rule: Rule) {
    && value.Obj?
    && Get(value.fields, "allowFallback") == Bool(rule.allowFallback)
    && ReadsField(Get(value.fields, "providerKey"), rule.providerKey)
    && ReadsAs(Get(value.fields, "scope"), rule.scope) && rule.scope != map[]
    && ReadsField(Get(value.fields, "serviceId"), rule.serviceId) && IsServiceId(rule.serviceId)
    && ReadsNumber(Get(value.fields, "version"), rule.version) && rule.version >= 1
  }

  /** A value parses to a rule exactly when its fields read as that rule. */
  lemma RuleParses(value: Value, rule: Rule)
    ensures ParseRule(value) == Ok(rule) <==> ReadsRule(value, rule)
  {
    if value.Obj? {
      TextParses(Get(value.fields, "providerKey"), "providerKey", rule.providerKey);
      ContextParses(Get(value.fields, "scope"), false, rule.scope);
      TextParses(Get(value.fields, "serviceId"), "serviceId", rule.serviceId);
      RevisionParses(Get(value.fields, "version"), "version", 1, rule.version);
    }
  }

  ghost predicate ReadsRules(items: seq<Value>, rules: seq<Rule>) {
    |rules| == |items| && forall i :: 0 <= i < |items| ==> ReadsRule(items[i], rules[i])
  }

  lemma ReadsRulesStep(items: seq<Value>, rules: seq<Rule>)
    requires items != [] && rules != []
    ensures ReadsRules(items, rules) <==> ReadsRule(items[0], rules[0]) && ReadsRules(items[1..], rules[1..])
  {
    if ReadsRule(items[0], rules[0]) && ReadsRules(items[1..], rules[1..]) {
      forall i | 0 <= i < |items| ensures ReadsRule(items[i], rules[i]) {
        assert i > 0 ==> items[i] == items[1..][i - 1] && rules[i] == rules[1..][i - 1];
      }
    }
  }

  lemma {:induction false} RulesParse(items: seq<Value>, rules: seq<Rule>)
    ensures ParseRules(items) == Ok(rules) <==> ReadsRules(items, rules)
  {
    if items != [] && rules != [] {
      RuleParses(items[0], rules[0]);
      RulesParse(items[1..], rules[1..]);
      ReadsRulesStep(items, rules);
      assert rules == [rules[0]] + rules[1..];
    }
  }

  ghost predicate ReadsDocument(value: Value, document: Document, isTimestamp: string -> bool) {
    && value.Obj?
    && Get(value.fields, "schemaVersion") == Finite(1.0)
    && Get(value.fields, "rules").Arr?
    && ReadsRules(Get(value.fields, "rules").items, document.rules)
    && DistinctIdentities(document.rules)
    && ReadsField(Get(value.fields, "updatedAt"), document.updatedAt) && isTimestamp(document.updatedAt)
    && ReadsNumber(Get(value.fields, "revision"), document.revision)
  }

  /** A value parses to a document exactly when its fields read as that document and no two rules share an identity. */
  lemma DocumentParses(value: Value, isTimestamp: string -> bool, document: Document)
    ensures ParseDocument(value, isTimestamp) == Ok(document) <==> ReadsDocument(value, document, isTimestamp)
  {
    if value.Obj? && Get(value.fields, "rules").Arr? {
      var items := Get(value.fields, "rules").items;
      RulesParse(items, document.rules);
      TextParses(Get(value.fields, "updatedAt"), "updatedAt", document.updatedAt);
      RevisionParses(Get(value.fields, "revision"), "revision", 0, document.revision);
      if ParseRules(items) == Ok(document.rules) {
        ParsedRules(items);
        forall i | 0 <= i < |document.rules| ensures NormalRule(document.rules[i]) { assert document.rules[i] in document.rules; }
        KeysDistinct(document.rules);
      }
    }
  }

  // ---------------------------------------------------------------- service ids

  /** A text of letters and digits is a service id unless it is empty; ... */
  lemma PlainServiceId(s: string)
    requires forall i :: 0 <= i < |s| ==> 'a' <= s[i] <= 'z' || '0' <= s[i] <= '9'
    ensures IsServiceId(s) <==> s != ""
  {}

  /** ... a separator joins two service ids to one, and nothing else does; ... */
  lemma JoinedServiceId(a: string, c: char, b: string)
    requires c == '.' || c == '_' || c == '-'
    ensures IsServiceId(a + [c] + b) <==> IsServiceId(a) && IsServiceId(b)
  {
    var s := a + [c] + b;
    if IsServiceId(s) {
      JoinedParts(a, c, b, s);
    }
    if IsServiceId(a) && IsServiceId(b) {
      PartsJoined(a, c, b, s);
    }
  }

  lemma Adjacent(s: string, i: nat)
    requires IsServiceId(s) && 0 < i < |s|
    ensures IsIdLetter(s[i - 1]) || IsIdLetter(s[i])
  {}

  lemma JoinedParts(a: string, c: char, b: string, s: string)
    requires s == a + [c] + b && IsServiceId(s) && !IsIdLetter(c)
    ensures IsServiceId(a) && IsServiceId(b)
  {
    var n := |a|;
    assert a == s[..n] && b == s[n + 1..] && s[n] == c;
    assert 0 < n < |s| - 1;
    Adjacent(s, n);
    Adjacent(s, n + 1);
    forall i | 0 < i < |b| ensures IsIdLetter(b[i - 1]) || IsIdLetter(b[i]) {
      Adjacent(s, n + 1 + i);
    }
    forall i | 0 < i < |a| ensures IsIdLetter(a[i - 1]) || IsIdLetter(a[i]) {
      Adjacent(s, i);
    }
  }

  lemma PartsJoined(a: string, c: char, b: string, s: string)
    requires s == a + [c] + b && IsServiceId(a) && IsServiceId(b) && c in "._-"
    ensures IsServiceId(s)
  {
    forall i | 0 <= i < |s| ensures IsIdLetter(s[i]) || s[i] in "._-" {
      assert s[i] == if i < |a| then a[i] else if i == |a| then c else b[i - |a| - 1];
    }
    forall i | 0 < i < |s| ensures IsIdLetter(s[i - 1]) || IsIdLetter(s[i]) {
      assert s[i] == if i < |a| then a[i] else if i == |a| then c else b[i - |a| - 1];
      assert s[i - 1] == if i - 1 < |a| then a[i - 1] else if i - 1 == |a| then c else b[i - |a| - 2];
    }
  }

  /** ... and no other character stands in one. */
  lemma ServiceIdCharacters(s: string, i: nat)
    requires IsServiceId(s) && i < |s|
    ensures 'a' <= s[i] <= 'z' || '0' <= s[i] <= '9' || s[i] == '.' || s[i] == '_' || s[i] == '-'
  {}
}
