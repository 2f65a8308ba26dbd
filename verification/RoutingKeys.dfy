/**
 Scopes of service routing rules and the text keys that identify rules: each selected dimension
 as `field="value"` with JSON string quoting (section 7 of RFC 8259), joined by `&`.
 */
module RoutingKeys {
  import opened Text

  /** The context dimensions, from the least to the most specific. */
  datatype Field =
    | DistributionId | ProfileId | UserId | WorkspaceId | ProjectId | RuntimeId
    | SessionId | AgentId | ModelProviderId | ModelId | InvocationId

  const SCOPE_FIELDS: seq<Field> :=
    [DistributionId, ProfileId, UserId, WorkspaceId, ProjectId, RuntimeId,
     SessionId, AgentId, ModelProviderId, ModelId, InvocationId]

  function Name(f: Field): string {
    match f
    case DistributionId => "distributionId"
    case ProfileId => "profileId"
    case UserId => "userId"
    case WorkspaceId => "workspaceId"
    case ProjectId => "projectId"
    case RuntimeId => "runtimeId"
    case SessionId => "sessionId"
    case AgentId => "agentId"
    case ModelProviderId => "modelProviderId"
    case ModelId => "modelId"
    case InvocationId => "invocationId"
  }

  /** The place of a dimension in `SCOPE_FIELDS`. */
  function Index(f: Field): (i: nat)
    ensures i < |SCOPE_FIELDS| && SCOPE_FIELDS[i] == f
  {
    match f
    case DistributionId => 0
    case ProfileId => 1
    case UserId => 2
    case WorkspaceId => 3
    case ProjectId => 4
    case RuntimeId => 5
    case SessionId => 6
    case AgentId => 7
    case ModelProviderId => 8
    case ModelId => 9
    case InvocationId => 10
  }

  lemma IndexAt(i: nat)
    requires i < |SCOPE_FIELDS|
    ensures Index(SCOPE_FIELDS[i]) == i
  {}

  /** The dimensions a rule selects, or the dimensions known of an invocation. */
  type Scope = map<Field, string>

  // ---------------------------------------------------------------- JSON string quoting

  function HexDigit(n: nat): char
    requires n < 16
  {
    if n < 10 then '0' + n as char else 'a' + (n - 10) as char
  }

  function EscapeChar(c: char): string {
    if c == '\"' then "\\\""
    else if c == '\\' then "\\\\"
    else if c == '\U{0008}' then "\\b"
    else if c == '\t' then "\\t"
    else if c == '\n' then "\\n"
    else if c == '\U{000C}' then "\\f"
    else if c == '\r' then "\\r"
    else if c < ' ' then "\\u00" + [HexDigit(c as nat / 16), HexDigit(c as nat % 16)]
    else [c]
  }

  function Escape(s: string): string {
    if s == "" then "" else EscapeChar(s[0]) + Escape(s[1..])
  }

  /** `JSON.stringify` of a string. */
  function Quote(s: string): string {
    "\"" + Escape(s) + "\""
  }

  lemma HexInjective(m: nat, n: nat)
    requires m < 16 && n < 16 && HexDigit(m) == HexDigit(n)
    ensures m == n
  {}

  /** An escaped character can be read off the front of a text in one way only. */
  lemma EscapeCharUnique(c: char, d: char, x: string, y: string)
    requires EscapeChar(c) + x == EscapeChar(d) + y
    ensures c == d && x == y
  {
    var t, u := EscapeChar(c) + x, EscapeChar(d) + y;
    assert t[0] == EscapeChar(c)[0] && u[0] == EscapeChar(d)[0];
    if |EscapeChar(c)| > 1 {
      assert t[0] == '\\';
      assert |EscapeChar(d)| > 1;
      assert t[1] == EscapeChar(c)[1] && u[1] == EscapeChar(d)[1];
      if t[1] == 'u' {
        assert t[4] == EscapeChar(c)[4] && u[4] == EscapeChar(d)[4];
        assert t[5] == EscapeChar(c)[5] && u[5] == EscapeChar(d)[5];
        HexInjective(c as nat / 16, d as nat / 16);
        HexInjective(c as nat % 16, d as nat % 16);
      }
    }
    assert c == d;
    assert x == t[|EscapeChar(c)|..] && y == u[|EscapeChar(d)|..];
  }

  /** The text after an opening quote, up to and beyond the closing one. */
  ghost function Quoted(s: string, x: string): string {
    Escape(s) + ("\"" + x)
  }

  lemma QuotedStart(s: string, x: string)
    ensures Quoted(s, x) != "" && (Quoted(s, x)[0] == '\"' <==> s == "")
  {
    assert s != "" ==> |EscapeChar(s[0])| >= 1 && EscapeChar(s[0])[0] != '\"';
  }

  lemma QuotedStep(s: string, x: string)
    requires s != ""
    ensures Quoted(s, x) == EscapeChar(s[0]) + Quoted(s[1..], x)
  {}

  /** A quoted string can be read off the front of a text in one way only. */
  lemma {:induction false} QuotedUnique(s: string, t: string, x: string, y: string)
    requires Quoted(s, x) == Quoted(t, y)
    ensures s == t && x == y
  {
    QuotedStart(s, x);
    QuotedStart(t, y);
    if s == "" {
      assert Quoted(s, x)[1..] == x && Quoted(t, y)[1..] == y;
    } else {
      QuotedStep(s, x);
      QuotedStep(t, y);
      EscapeCharUnique(s[0], t[0], Quoted(s[1..], x), Quoted(t[1..], y));
      QuotedUnique(s[1..], t[1..], x, y);
      assert s == [s[0]] + s[1..] && t == [t[0]] + t[1..];
    }
  }

  lemma QuoteUnique(s: string, t: string, x: string, y: string)
    requires Quote(s) + x == Quote(t) + y
    ensures s == t && x == y
  {
    assert (Quote(s) + x)[1..] == Quoted(s, x);
    assert (Quote(t) + y)[1..] == Quoted(t, y);
    QuotedUnique(s, t, x, y);
  }

  // ---------------------------------------------------------------- what a quoted string denotes

  /** The character a two-character escape denotes (section 7 of RFC 8259). */
  function EscapeMeaning(c: char): Option<char> {
    match c
    case '\"' => Some('\"')
    case '\\' => Some('\\')
    case '/' => Some('/')
    case 'b' => Some(8 as char)
    case 'f' => Some(12 as char)
    case 'n' => Some(10 as char)
    case 'r' => Some(13 as char)
    case 't' => Some(9 as char)
    case _ => None
  }

  function HexValue(c: char): Option<nat> {
    if '0' <= c <= '9' then Some((c - '0') as nat)
    else if 'a' <= c <= 'f' then Some((c - 'a') as nat + 10)
    else if 'A' <= c <= 'F' then Some((c - 'A') as nat + 10)
    else None
  }

  /** The character code of four hexadecimal digits. */
  function HexCode(s: string): Option<nat>
    requires |s| == 4
  {
    var a, b, c, d := HexValue(s[0]), HexValue(s[1]), HexValue(s[2]), HexValue(s[3]);
    if a.Some? && b.Some? && c.Some? && d.Some? then Some(4096 * a.value + 256 * b.value + 16 * c.value + d.value) else None
  }

  /** Reads a JSON string from behind its opening quote: what it denotes, and the text behind the closing one. */
  function ReadString(t: string): Option<(string, string)>
    decreases |t|
  {
    if t == "" || t[0] < ' ' then None
    else if t[0] == '\"' then Some(("", t[1..]))
    else if t[0] != '\\' then Cons(t[0], ReadString(t[1..]))
    else if |t| < 2 then None
    else if t[1] != 'u' then
      if EscapeMeaning(t[1]).None? then None else Cons(EscapeMeaning(t[1]).value, ReadString(t[2..]))
    else if |t| < 6 || HexCode(t[2..6]).None? || HexCode(t[2..6]).value >= 0xD800 then None
    else Cons(HexCode(t[2..6]).value as char, ReadString(t[6..]))
  }

  function Cons(c: char, rest: Option<(string, string)>): Option<(string, string)> {
    if rest.None? then None else Some(([c] + rest.value.0, rest.value.1))
  }

  lemma ReadEscaped(c: char, rest: string)
    ensures ReadString(EscapeChar(c) + rest) == Cons(c, ReadString(rest))
  {
    var e := EscapeChar(c);
    var t := e + rest;
    assert t[|e|..] == rest;
    if |e| == 6 {
      HexReads(c as nat / 16);
      HexReads(c as nat % 16);
      assert t[2..6] == e[2..6] == ['0', '0', HexDigit(c as nat / 16), HexDigit(c as nat % 16)];
      assert HexCode(t[2..6]) == Some(c as nat);
    }
  }

  lemma HexReads(n: nat)
    requires n < 16
    ensures HexValue(HexDigit(n)) == Some(n)
  {}

  lemma {:induction false} ReadEscapes(s: string, x: string)
    ensures ReadString(Quoted(s, x)) == Some((s, x))
  {
    if s == "" {
      assert Quoted(s, x) == "\"" + x && Quoted(s, x)[1..] == x;
    } else {
      QuotedStep(s, x);
      ReadEscapes(s[1..], x);
      ReadEscaped(s[0], Quoted(s[1..], x));
      assert s == [s[0]] + s[1..];
    }
  }

  /** A quoted string is a JSON string that denotes the string. */
  lemma QuoteDenotes(s: string, x: string)
    ensures (Quote(s) + x)[0] == '\"' && ReadString((Quote(s) + x)[1..]) == Some((s, x))
  {
    assert (Quote(s) + x)[1..] == Quoted(s, x);
    ReadEscapes(s, x);
  }

  /** Other control characters are written with four hexadecimal digits, in small letters. */
  lemma ControlQuote(c: char)
    requires c < ' ' && c !in "\U{0008}\t\n\U{000C}\r"
    ensures
      var digits := "0123456789abcdef";
      c as nat < 32 && EscapeChar(c) == "\\u00" + [digits[c as nat / 16], digits[c as nat % 16]]
  {
    HexDigits(c as nat / 16);
    HexDigits(c as nat % 16);
  }

  lemma HexDigits(n: nat)
    requires n < 16
    ensures HexDigit(n) == "0123456789abcdef"[n]
  {}

  /** Text without quotes, backslashes and control characters is quoted as it stands. */
  lemma {:induction false} PlainQuote(s: string)
    requires forall i :: 0 <= i < |s| ==> s[i] >= ' ' && s[i] != '\"' && s[i] != '\\'
    ensures Quote(s) == "\"" + s + "\""
  {
    if s != "" {
      PlainQuote(s[1..]);
      assert Escape(s[1..]) == s[1..] by {
        assert Quote(s[1..])[1..|s|] == Escape(s[1..])[..|s| - 1];
        assert |Escape(s[1..])| == |s| - 1;
      }
      assert s == [s[0]] + s[1..];
    }
  }

  // ---------------------------------------------------------------- the scope key

  function KeyPart(f: Field, value: string): string {
    Name(f) + "=" + Quote(value)
  }

  /** One part per selected dimension, in the order of `SCOPE_FIELDS`. */
  function KeyParts(scope: Scope, from: nat): seq<string>
    decreases |SCOPE_FIELDS| - from
  {
    if from >= |SCOPE_FIELDS| then []
    else
      var f := SCOPE_FIELDS[from];
      (if f in scope && scope[f] != "" then [KeyPart(f, scope[f])] else []) + KeyParts(scope, from + 1)
  }

  function ScopeKey(scope: Scope): string {
    Join(KeyParts(scope, 0), "&")
  }

  /** Values of parsed scopes are never empty. */
  predicate NonEmptyValues(scope: Scope) {
    forall f :: f in scope ==> scope[f] != ""
  }

  /** The parts with an ampersand before each. */
  ghost function KeyTail(scope: Scope, from: nat): string
    decreases |SCOPE_FIELDS| - from
  {
    if from >= |SCOPE_FIELDS| then ""
    else
      var f := SCOPE_FIELDS[from];
      if f in scope then "&" + KeyPart(f, scope[f]) + KeyTail(scope, from + 1) else KeyTail(scope, from + 1)
  }

  lemma {:induction false} KeyTailIsJoin(scope: Scope, from: nat)
    requires NonEmptyValues(scope)
    ensures KeyTail(scope, from) == if KeyParts(scope, from) == [] then "" else "&" + Join(KeyParts(scope, from), "&")
    decreases |SCOPE_FIELDS| - from
  {
    if from < |SCOPE_FIELDS| {
      KeyTailIsJoin(scope, from + 1);
      var f := SCOPE_FIELDS[from];
      if f in scope {
        var rest := KeyParts(scope, from + 1);
        assert KeyParts(scope, from) == [KeyPart(f, scope[f])] + rest;
        assert KeyParts(scope, from)[1..] == rest;
        assert Join(KeyParts(scope, from), "&") == KeyPart(f, scope[f]) + KeyTail(scope, from + 1);
      } else {
        assert KeyParts(scope, from) == KeyParts(scope, from + 1);
      }
    }
  }

  lemma NameFingerprint(f: Field)
    ensures |Name(f)| >= 6 && '=' !in Name(f)
    ensures
      (Name(f)[0], |Name(f)|, Name(f)[3]) ==
      match f
      case DistributionId => ('d', 14, 't')
      case ProfileId => ('p', 9, 'f')
      case UserId => ('u', 6, 'r')
      case WorkspaceId => ('w', 11, 'k')
      case ProjectId => ('p', 9, 'j')
      case RuntimeId => ('r', 9, 't')
      case SessionId => ('s', 9, 's')
      case AgentId => ('a', 7, 'n')
      case ModelProviderId => ('m', 15, 'e')
      case ModelId => ('m', 7, 'e')
      case InvocationId => ('i', 12, 'o')
  {}

  lemma NameInjective(f: Field, g: Field)
    requires Name(f) == Name(g)
    ensures f == g
  {
    NameFingerprint(f);
    NameFingerprint(g);
  }

  /** A key part can be read off the front of a text in one way only. */
  lemma KeyPartUnique(f: Field, g: Field, v: string, w: string, x: string, y: string)
    requires KeyPart(f, v) + x == KeyPart(g, w) + y
    ensures f == g && v == w && x == y
  {
    NameFingerprint(f);
    NameFingerprint(g);
    KeyPartSplit(f, v, x);
    KeyPartSplit(g, w, y);
    BeforeMark(Name(f), Name(g), '=', Quote(v) + x, Quote(w) + y);
    NameInjective(f, g);
    QuoteUnique(v, w, x, y);
  }

  lemma KeyPartSplit(f: Field, v: string, x: string)
    ensures KeyPart(f, v) + x == Name(f) + (['='] + (Quote(v) + x))
  {}

  /** A non-empty tail starts with the part of a dimension not before `from`. */
  lemma {:induction false} KeyTailFirst(scope: Scope, from: nat) returns (f: Field, rest: string)
    requires KeyTail(scope, from) != ""
    ensures f in scope && Index(f) >= from
    ensures KeyTail(scope, from) == "&" + KeyPart(f, scope[f]) + rest
    decreases |SCOPE_FIELDS| - from
  {
    f := SCOPE_FIELDS[from];
    IndexAt(from);
    if f in scope {
      rest := KeyTail(scope, from + 1);
    } else {
      f, rest := KeyTailFirst(scope, from + 1);
    }
  }

  /** If one scope selects the dimension at `from`, a scope with the same tail selects it too. */
  lemma KeyTailSelects(a: Scope, b: Scope, from: nat)
    requires from < |SCOPE_FIELDS|
    requires KeyTail(a, from) == KeyTail(b, from)
    requires SCOPE_FIELDS[from] in a
    ensures SCOPE_FIELDS[from] in b && a[SCOPE_FIELDS[from]] == b[SCOPE_FIELDS[from]]
    ensures KeyTail(a, from + 1) == KeyTail(b, from + 1)
  {
    var f := SCOPE_FIELDS[from];
    IndexAt(from);
    var g, rest := KeyTailFirst(b, from);
    DropAmpersand(KeyPart(f, a[f]), KeyTail(a, from + 1), KeyPart(g, b[g]), rest);
    KeyPartUnique(f, g, a[f], b[g], KeyTail(a, from + 1), rest);
    DropAmpersand(KeyPart(f, b[f]), KeyTail(b, from + 1), KeyPart(f, b[f]), rest);
    KeyPartUnique(f, f, b[f], b[f], KeyTail(b, from + 1), rest);
  }

  lemma DropAmpersand(p: string, x: string, q: string, y: string)
    requires "&" + p + x == "&" + q + y
    ensures p + x == q + y
  {
    assert ("&" + p + x)[1..] == p + x && ("&" + q + y)[1..] == q + y;
  }

  ghost predicate AgreeAt(a: Scope, b: Scope, f: Field) {
    (f in a <==> f in b) && (f in a ==> a[f] == b[f])
  }

  ghost predicate AgreeFrom(a: Scope, b: Scope, from: nat) {
    forall f :: Index(f) >= from ==> AgreeAt(a, b, f)
  }

  lemma AgreeStep(a: Scope, b: Scope, from: nat)
    requires from < |SCOPE_FIELDS| && AgreeAt(a, b, SCOPE_FIELDS[from]) && AgreeFrom(a, b, from + 1)
    ensures AgreeFrom(a, b, from)
  {
    forall f | Index(f) >= from ensures AgreeAt(a, b, f) {
      if Index(f) == from {
        assert SCOPE_FIELDS[Index(f)] == f;
      }
    }
  }

  lemma KeyTailStep(a: Scope, b: Scope, from: nat)
    requires from < |SCOPE_FIELDS| && KeyTail(a, from) == KeyTail(b, from)
    ensures AgreeAt(a, b, SCOPE_FIELDS[from]) && KeyTail(a, from + 1) == KeyTail(b, from + 1)
  {
    var f := SCOPE_FIELDS[from];
    if f in a {
      KeyTailSelects(a, b, from);
    } else if f in b {
      KeyTailSelects(b, a, from);
    }
  }

  lemma {:induction false} KeyTailInjective(a: Scope, b: Scope, from: nat)
    requires KeyTail(a, from) == KeyTail(b, from)
    ensures AgreeFrom(a, b, from)
    decreases |SCOPE_FIELDS| - from
  {
    if from < |SCOPE_FIELDS| {
      KeyTailStep(a, b, from);
      KeyTailInjective(a, b, from + 1);
      AgreeStep(a, b, from);
    }
  }

  /** Scope keys tell scopes apart. */
  lemma ScopeKeyInjective(a: Scope, b: Scope)
    requires NonEmptyValues(a) && NonEmptyValues(b)
    requires a != map[] && b != map[]
    requires ScopeKey(a) == ScopeKey(b)
    ensures a == b
  {
    KeyTailOf(a);
    KeyTailOf(b);
    KeyTailInjective(a, b, 0);
    AgreeEverywhere(a, b);
  }

  lemma AgreeEverywhere(a: Scope, b: Scope)
    requires AgreeFrom(a, b, 0)
    ensures a == b
  {
    forall f ensures (f in a <==> f in b) && (f in a ==> a[f] == b[f]) {
      assert Index(f) >= 0;
      assert AgreeAt(a, b, f);
    }
  }

  lemma KeyTailOf(scope: Scope)
    requires NonEmptyValues(scope) && scope != map[]
    ensures KeyTail(scope, 0) == "&" + ScopeKey(scope)
  {
    var f :| f in scope;
    assert Index(f) >= 0;
    SomePart(scope, 0);
    KeyTailIsJoin(scope, 0);
  }

  lemma {:induction false} SomePart(scope: Scope, from: nat)
    requires NonEmptyValues(scope)
    requires exists f :: f in scope && Index(f) >= from
    ensures KeyParts(scope, from) != []
    decreases |SCOPE_FIELDS| - from
  {
    var f :| f in scope && Index(f) >= from;
    if SCOPE_FIELDS[from] !in scope {
      assert Index(f) != from;
      SomePart(scope, from + 1);
    }
  }
}
